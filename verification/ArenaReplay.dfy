/** Reset and replay: a run that once succeeded repeats, after a reset, at the same addresses and without growth. */
module ArenaReplay {
  import opened Arena
  import opened Basics

  /** One use of the arena: an allocation, or a trim of the k-th block handed out since the reset. */
  datatype Op = Alloc(bytes: nat, align: nat) | Trim(k: nat, newBytes: nat)

  datatype State = State(m: Mem, live: seq<Block>)

  predicate CursorOk(m: Mem) { m.chunks != [] ==> m.cursor < |m.chunks| }

  predicate OpOk(op: Op) { op.Alloc? ==> op.align >= 1 }

  /** One step, with the host's answer to a growth it may need; the address is 0 for a trim or a failure. */
  function Step(s: State, op: Op, host: nat): (r: (State, nat))
    requires CursorOk(s.m) && OpOk(op)
    ensures CursorOk(r.0.m)
  {
    match op
    case Alloc(bytes, align) =>
      var (m', p) := Allocated(s.m, bytes, align, host);
      if p == 0 then (s, 0) else (State(m', s.live + [Block(p, bytes, align, m'.cursor)]), p)
    case Trim(k, newBytes) =>
      if k < |s.live| && newBytes <= s.live[k].size then
        var b := s.live[k];
        (State(Shrunk(s.m, b.addr, b.size, newBytes),
               if b.addr + b.size == s.m.cur then s.live[k := b.(size := newBytes)] else s.live), 0)
      else (s, 0)
  }

  predicate RunOk(ops: seq<Op>, hosts: seq<nat>) {
    |ops| == |hosts| && forall i :: 0 <= i < |ops| ==> OpOk(ops[i])
  }

  /** The final state and the addresses returned. */
  function Run(s: State, ops: seq<Op>, hosts: seq<nat>): (r: (State, seq<nat>))
    requires CursorOk(s.m) && RunOk(ops, hosts)
    ensures CursorOk(r.0.m)
    decreases ops
  {
    if ops == [] then (s, []) else
      var (s', p) := Step(s, ops[0], hosts[0]);
      var (last, ps) := Run(s', ops[1..], hosts[1..]);
      (last, [p] + ps)
  }

  /** Every allocation of the run succeeds. */
  predicate Succeeds(s: State, ops: seq<Op>, hosts: seq<nat>)
    requires CursorOk(s.m) && RunOk(ops, hosts)
    decreases ops
  {
    ops != [] ==>
      var (s', p) := Step(s, ops[0], hosts[0]);
      (ops[0].Alloc? ==> p != 0) && Succeeds(s', ops[1..], hosts[1..])
  }

  /** A step leaves the chunks up to the cursor alone and never moves the cursor back. */
  lemma StepPrefix(s: State, op: Op, host: nat)
    requires CursorOk(s.m) && OpOk(op) && s.m.chunks != []
    ensures var m' := Step(s, op, host).0.m;
            s.m.cursor <= m'.cursor < |m'.chunks| && m'.chunks[..s.m.cursor + 1] == s.m.chunks[..s.m.cursor + 1]
  {
    hide AlignUp, HasRoom, CanReuse, CanGrow;
  }

  lemma {:induction false} RunPrefix(s: State, ops: seq<Op>, hosts: seq<nat>)
    requires CursorOk(s.m) && RunOk(ops, hosts) && s.m.chunks != []
    ensures var m' := Run(s, ops, hosts).0.m;
            s.m.cursor < |m'.chunks| && m'.chunks[..s.m.cursor + 1] == s.m.chunks[..s.m.cursor + 1]
    decreases ops
  {
    hide Step;
    if ops != [] {
      StepPrefix(s, ops[0], hosts[0]);
      var s' := Step(s, ops[0], hosts[0]).0;
      RunPrefix(s', ops[1..], hosts[1..]);
      var m' := Run(s', ops[1..], hosts[1..]).0.m;
      assert m'.chunks[..s.m.cursor + 1] == m'.chunks[..s'.m.cursor + 1][..s.m.cursor + 1];
    }
  }

  /** The second run stands where the first stood, over the chunks all of the first run left. */
  ghost predicate Mirrors(a: State, b: State, all: seq<Chunk>) {
    && b.m.chunks == all && b.live == a.live && b.m.used == a.m.used
    && (if a.m.chunks == [] then
          && a.live == [] && a.m.cur == 0 && b.m.cursor == 0 && a.m.cursor == 0
          && (if all == [] then b.m.cur == b.m.limit == 0 else b.m.cur == all[0].data && b.m.limit == all[0].limit)
        else
          && a.m.cursor < |a.m.chunks| && a.m.cursor < |all| && all[..a.m.cursor + 1] == a.m.chunks[..a.m.cursor + 1]
          && b.m.cursor == a.m.cursor && b.m.cur == a.m.cur && b.m.limit == a.m.limit)
  }

  /** A chunk just grown for a request has room for it. */
  lemma GrownHasRoom(m: Mem, bytes: nat, align: nat, host: nat)
    requires CursorOk(m) && align >= 1 && host != 0
    ensures var g := Grown(m, bytes + align, host);
            var at := if m.chunks == [] then 0 else m.cursor + 1;
            && g.cursor == at && at < |g.chunks| && g.cur == g.chunks[at].data && g.limit == g.chunks[at].limit
            && g.cur != 0 && Fits(g.chunks[at], bytes, align)
            && g.used == m.used
  {
    var c := NewChunk(host, GrowRaw(m, bytes + align));
    GrownFields(m, bytes + align, host, c);
    WideFits(c, bytes, align);
  }

  lemma StepMirrors(a: State, b: State, all: seq<Chunk>, op: Op, host: nat, host': nat)
    requires CursorOk(a.m) && CursorOk(b.m) && OpOk(op) && Mirrors(a, b, all)
    requires op.Alloc? ==> Step(a, op, host).1 != 0
    requires var a' := Step(a, op, host).0;
             a'.m.chunks != [] ==> a'.m.cursor < |all| && all[..a'.m.cursor + 1] == a'.m.chunks[..a'.m.cursor + 1]
    ensures var ra, rb := Step(a, op, host), Step(b, op, host');
            Mirrors(ra.0, rb.0, all) && ra.1 == rb.1 && rb.0.m.reserved == b.m.reserved
  {
    if op.Alloc? {
      AllocMirrors(a, b, all, op.bytes, op.align, host, host');
    }
  }

  lemma AllocMirrors(a: State, b: State, all: seq<Chunk>, bytes: nat, align: nat, host: nat, host': nat)
    requires CursorOk(a.m) && CursorOk(b.m) && align >= 1 && Mirrors(a, b, all)
    requires Allocated(a.m, bytes, align, host).1 != 0
    requires var m' := Allocated(a.m, bytes, align, host).0;
             m'.chunks != [] && m'.cursor < |all| && all[..m'.cursor + 1] == m'.chunks[..m'.cursor + 1]
    ensures var op := Alloc(bytes, align);
            var ra, rb := Step(a, op, host), Step(b, op, host');
            Mirrors(ra.0, rb.0, all) && ra.1 == rb.1 && rb.0.m.reserved == b.m.reserved
  {
    hide AlignUp, Fits, CanGrow;
    var m' := Allocated(a.m, bytes, align, host).0;
    assert all[m'.cursor] == all[..m'.cursor + 1][m'.cursor] == m'.chunks[m'.cursor];
    if HasRoom(a.m, bytes, align) {
    } else if CanReuse(a.m, bytes, align) {
    } else {
      GrownHasRoom(a.m, bytes, align, host);
      hide Grown;
    }
  }

  lemma {:induction false} RunMirrors(a: State, b: State, ops: seq<Op>, hosts: seq<nat>, hosts': seq<nat>)
    requires CursorOk(a.m) && CursorOk(b.m) && RunOk(ops, hosts) && |hosts'| == |hosts| && Succeeds(a, ops, hosts)
    requires Mirrors(a, b, Run(a, ops, hosts).0.m.chunks)
    ensures var ra, rb := Run(a, ops, hosts), Run(b, ops, hosts');
            && rb.1 == ra.1 && rb.0.live == ra.0.live && rb.0.m.chunks == b.m.chunks && rb.0.m.reserved == b.m.reserved
            && Mirrors(ra.0, rb.0, b.m.chunks)
    decreases ops
  {
    hide Step, Mirrors;
    MirrorsChunks(a, b, Run(a, ops, hosts).0.m.chunks);
    if ops != [] {
      var all := Run(a, ops, hosts).0.m.chunks;
      var a', b' := Step(a, ops[0], hosts[0]).0, Step(b, ops[0], hosts'[0]).0;
      if a'.m.chunks != [] {
        RunPrefix(a', ops[1..], hosts[1..]);
      }
      StepMirrors(a, b, all, ops[0], hosts[0], hosts'[0]);
      MirrorsChunks(a', b', all);
      RunMirrors(a', b', ops[1..], hosts[1..], hosts'[1..]);
    } else {
      MirrorsLive(a, b, Run(a, ops, hosts).0.m.chunks);
    }
  }

  lemma MirrorsChunks(a: State, b: State, all: seq<Chunk>)
    requires Mirrors(a, b, all)
    ensures b.m.chunks == all
  {
  }

  lemma MirrorsLive(a: State, b: State, all: seq<Chunk>)
    requires Mirrors(a, b, all)
    ensures b.live == a.live
  {
  }

  /** Replay: from the reset of any arena, run any allocations and trims that all succeed; reset, and run them again
      with whatever the host would now answer. The addresses are the same and the arena has not grown. */
  lemma Replay(m: Mem, ops: seq<Op>, hosts: seq<nat>, hosts': seq<nat>)
    requires CursorOk(m) && RunOk(ops, hosts) && |hosts'| == |hosts|
    requires Succeeds(State(Rewound(m), []), ops, hosts)
    ensures var first := Run(State(Rewound(m), []), ops, hosts);
            var again := Run(State(Rewound(first.0.m), []), ops, hosts');
            && again.1 == first.1 && again.0.live == first.0.live
            && again.0.m.chunks == first.0.m.chunks && again.0.m.reserved == first.0.m.reserved
  {
    var a := State(Rewound(m), []);
    var first := Run(a, ops, hosts).0.m;
    var b := State(Rewound(first), []);
    if a.m.chunks != [] {
      RunPrefix(a, ops, hosts);
      assert first.chunks[0] == first.chunks[..1][0] == a.m.chunks[0];
      assert first.chunks[..1] == a.m.chunks[..1];
    }
    assert Mirrors(a, b, first.chunks);
    hide Mirrors, Step, Run, Succeeds;
    RunMirrors(a, b, ops, hosts, hosts');
  }

  // ---- every reachable state -----------------------------------------------------------------

  ghost predicate InOrder(s: State) { MemOk(s.m) && LiveOk(s.m, s.live) && Grounded(s.m) }

  /** Whatever the host answers along the run is memory away from the arena's chunks. */
  ghost predicate HostsOk(s: State, ops: seq<Op>, hosts: seq<nat>)
    requires CursorOk(s.m) && RunOk(ops, hosts)
    decreases ops
  {
    ops != [] ==>
      && (ops[0].Alloc? ==> HostOk(s.m, ops[0].bytes + ops[0].align, hosts[0]))
      && HostsOk(Step(s, ops[0], hosts[0]).0, ops[1..], hosts[1..])
  }

  /** Every allocation asks for something, and every trim leaves something. */
  predicate Positive(ops: seq<Op>) {
    forall i :: 0 <= i < |ops| ==> match ops[i] case Alloc(bytes, _) => bytes > 0 case Trim(_, newBytes) => newBytes > 0
  }

  lemma StepInOrder(s: State, op: Op, host: nat)
    requires CursorOk(s.m) && OpOk(op) && InOrder(s)
    requires op.Alloc? ==> op.bytes > 0 && HostOk(s.m, op.bytes + op.align, host)
    requires op.Trim? ==> op.newBytes > 0
    ensures var r := Step(s, op, host).0;
            InOrder(r) && r.m.cap == s.m.cap && (s.m.reserved <= s.m.cap ==> r.m.reserved <= r.m.cap)
  {
    match op
    case Alloc(bytes, align) =>
      AllocateKeeps(s.m, s.live, bytes, align, host);
      hide MemOk, LiveOk, Grounded, HostOk, Allocated;
    case Trim(k, newBytes) =>
      if k < |s.live| && newBytes <= s.live[k].size {
        ShrinkKeeps(s.m, s.live, k, newBytes);
        hide MemOk, LiveOk, Grounded;
      }
  }

  lemma {:induction false} RunInOrder(s: State, ops: seq<Op>, hosts: seq<nat>)
    requires CursorOk(s.m) && RunOk(ops, hosts) && InOrder(s) && Positive(ops) && HostsOk(s, ops, hosts)
    ensures var r := Run(s, ops, hosts).0;
            InOrder(r) && r.m.cap == s.m.cap && (s.m.reserved <= s.m.cap ==> r.m.reserved <= r.m.cap)
    decreases ops
  {
    hide InOrder, Step, HostOk;
    if ops != [] {
      assert match ops[0] case Alloc(bytes, _) => bytes > 0 case Trim(_, newBytes) => newBytes > 0;
      StepInOrder(s, ops[0], hosts[0]);
      RunInOrder(Step(s, ops[0], hosts[0]).0, ops[1..], hosts[1..]);
    }
  }

  /** A run between two resets. */
  datatype Session = Session(ops: seq<Op>, hosts: seq<nat>)

  predicate SessionsOk(ss: seq<Session>) { forall i :: 0 <= i < |ss| ==> RunOk(ss[i].ops, ss[i].hosts) && Positive(ss[i].ops) }

  /** The state after these sessions, each ended by a reset. */
  function AfterSessions(s: State, ss: seq<Session>): (r: State)
    requires CursorOk(s.m) && SessionsOk(ss)
    ensures CursorOk(r.m)
    decreases ss
  {
    if ss == [] then s else AfterSessions(State(Rewound(Run(s, ss[0].ops, ss[0].hosts).0.m), []), ss[1..])
  }

  ghost predicate SessionHostsOk(s: State, ss: seq<Session>)
    requires CursorOk(s.m) && SessionsOk(ss)
    decreases ss
  {
    ss != [] ==>
      && HostsOk(s, ss[0].ops, ss[0].hosts)
      && SessionHostsOk(State(Rewound(Run(s, ss[0].ops, ss[0].hosts).0.m), []), ss[1..])
  }

  lemma {:induction false} SessionsInOrder(s: State, ss: seq<Session>)
    requires CursorOk(s.m) && SessionsOk(ss) && InOrder(s) && SessionHostsOk(s, ss)
    ensures var r := AfterSessions(s, ss);
            InOrder(r) && r.m.cap == s.m.cap && (s.m.reserved <= s.m.cap ==> r.m.reserved <= r.m.cap)
    decreases ss
  {
    if ss != [] {
      RunInOrder(s, ss[0].ops, ss[0].hosts);
      var m := Run(s, ss[0].ops, ss[0].hosts).0.m;
      assert MemOk(m);
      RewindKeeps(m);
      hide MemOk, LiveOk, Grounded, Run, HostsOk;
      SessionsInOrder(State(Rewound(m), []), ss[1..]);
    }
  }

  /** A new arena with its capacity limit set up front. */
  function New(buffer: nat, size: nat, limit: nat): (s: State)
    ensures CursorOk(s.m)
  {
    State(Seeded(buffer, size).(cap := limit), [])
  }

  /** Every state an arena can reach is in order: after any number of sessions and any run, all of positive allocations
      and trims. Live blocks are aligned, inside one chunk and pairwise apart, none is past the cursor, the used count is
      their sum, the reserve is the sum of the chunks, and it is within a limit that allowed the seed. */
  lemma ReachableInOrder(buffer: nat, size: nat, limit: nat, ss: seq<Session>, ops: seq<Op>, hosts: seq<nat>)
    requires SessionsOk(ss) && RunOk(ops, hosts) && Positive(ops)
    requires SessionHostsOk(New(buffer, size, limit), ss)
    requires HostsOk(AfterSessions(New(buffer, size, limit), ss), ops, hosts)
    ensures var r := Run(AfterSessions(New(buffer, size, limit), ss), ops, hosts).0;
            InOrder(r) && (Seeded(buffer, size).reserved <= limit ==> r.m.reserved <= limit)
  {
    SeededOk(buffer, size);
    assert InOrder(New(buffer, size, limit));
    hide InOrder, Run, HostsOk, Seeded, SessionHostsOk, SessionsOk;
    SessionsInOrder(New(buffer, size, limit), ss);
    RunInOrder(AfterSessions(New(buffer, size, limit), ss), ops, hosts);
  }

  // ---- positive sizes are needed -------------------------------------------------------------

  /** A run of four steps, spelled out. */
  ghost predicate FourSteps(s0: State, s1: State, s2: State, s3: State, s4: State, ops: seq<Op>, hosts: seq<nat>)
    requires |ops| == 4 && RunOk(ops, hosts)
    requires CursorOk(s0.m) && CursorOk(s1.m) && CursorOk(s2.m) && CursorOk(s3.m)
  {
    && Step(s0, ops[0], hosts[0]).0 == s1 && (ops[0].Alloc? ==> Step(s0, ops[0], hosts[0]).1 != 0)
    && Step(s1, ops[1], hosts[1]).0 == s2 && (ops[1].Alloc? ==> Step(s1, ops[1], hosts[1]).1 != 0)
    && Step(s2, ops[2], hosts[2]).0 == s3 && (ops[2].Alloc? ==> Step(s2, ops[2], hosts[2]).1 != 0)
    && Step(s3, ops[3], hosts[3]).0 == s4 && (ops[3].Alloc? ==> Step(s3, ops[3], hosts[3]).1 != 0)
    && (ops[0].Alloc? ==> HostOk(s0.m, ops[0].bytes + ops[0].align, hosts[0]))
    && (ops[1].Alloc? ==> HostOk(s1.m, ops[1].bytes + ops[1].align, hosts[1]))
    && (ops[2].Alloc? ==> HostOk(s2.m, ops[2].bytes + ops[2].align, hosts[2]))
    && (ops[3].Alloc? ==> HostOk(s3.m, ops[3].bytes + ops[3].align, hosts[3]))
  }

  lemma FourStepsRun(s0: State, s1: State, s2: State, s3: State, s4: State, ops: seq<Op>, hosts: seq<nat>)
    requires |ops| == 4 && RunOk(ops, hosts)
    requires CursorOk(s0.m) && CursorOk(s1.m) && CursorOk(s2.m) && CursorOk(s3.m)
    requires FourSteps(s0, s1, s2, s3, s4, ops, hosts)
    ensures HostsOk(s0, ops, hosts) && Succeeds(s0, ops, hosts) && Run(s0, ops, hosts).0 == s4
  {
    hide Step, HostOk;
    assert ops[3..][1..] == [] && hosts[3..][1..] == [];
    assert ops[2..][1..] == ops[3..] && hosts[2..][1..] == hosts[3..];
    assert ops[1..][1..] == ops[2..] && hosts[1..][1..] == hosts[2..];
    assert HostsOk(s4, [], []) && Succeeds(s4, [], []) && Run(s4, [], []).0 == s4;
    assert HostsOk(s3, ops[3..], hosts[3..]) && Succeeds(s3, ops[3..], hosts[3..]) && Run(s3, ops[3..], hosts[3..]).0 == s4;
    assert HostsOk(s2, ops[2..], hosts[2..]) && Succeeds(s2, ops[2..], hosts[2..]) && Run(s2, ops[2..], hosts[2..]).0 == s4;
    assert HostsOk(s1, ops[1..], hosts[1..]) && Succeeds(s1, ops[1..], hosts[1..]) && Run(s1, ops[1..], hosts[1..]).0 == s4;
  }

  lemma CursorLeft(m: Mem)
    requires m.chunks != [] && m.cursor < |m.chunks| && m.cur < m.chunks[m.cursor].data
    ensures !MemOk(m)
  {
  }

  /** A sixteen-byte seed, all of it handed out. */
  function SeedTaken(): State {
    State(Mem([Chunk(16, 32)], 0, 32, 32, 16, 16, 4096, SIZE_MAX), [Block(16, 16, 16, 0)])
  }

  lemma TakesSeed()
    ensures Step(New(15, 17, SIZE_MAX), Alloc(16, 16), 0) == (SeedTaken(), 16) && HostOk(New(15, 17, SIZE_MAX).m, 32, 0)
  {
    assert New(15, 17, SIZE_MAX).m == Mem([Chunk(16, 32)], 0, 16, 32, 0, 16, 4096, SIZE_MAX);
    assert [] + [Block(16, 16, 16, 0)] == [Block(16, 16, 16, 0)];
  }

  /** A trim to nothing leaves the bump pointer at the start of a grown chunk. When that chunk adjoins the one before,
      trimming the last block there, by its true size, then moves the bump pointer out of the current chunk. */
  lemma TrimToNothingEscapes()
    ensures var ops, hosts := [Alloc(16, 16), Alloc(8, 8), Trim(1, 0), Trim(0, 8)], [0, 32, 0, 0];
            var s := New(15, 17, SIZE_MAX);
            && RunOk(ops, hosts) && HostsOk(s, ops, hosts) && Succeeds(s, ops, hosts)
            && !MemOk(Run(s, ops, hosts).0.m)
  {
    var ops, hosts := [Alloc(16, 16), Alloc(8, 8), Trim(1, 0), Trim(0, 8)], [0, 32, 0, 0];
    var chunks := [Chunk(16, 32), Chunk(32, 4144)];
    var s0 := New(15, 17, SIZE_MAX);
    var s1 := SeedTaken();
    var s2 := State(Mem(chunks, 1, 40, 4144, 24, 4128, 8192, SIZE_MAX), [Block(16, 16, 16, 0), Block(32, 8, 8, 1)]);
    var s3 := State(Mem(chunks, 1, 32, 4144, 16, 4128, 8192, SIZE_MAX), [Block(16, 16, 16, 0), Block(32, 0, 8, 1)]);
    var s4 := State(Mem(chunks, 1, 24, 4144, 8, 4128, 8192, SIZE_MAX), [Block(16, 8, 16, 0), Block(32, 0, 8, 1)]);
    TakesSeed();
    assert Step(s1, ops[1], 32) == (s2, 32) by {
      assert Grown(s1.m, 16, 32).chunks == chunks;
      assert s1.live + [Block(32, 8, 8, 1)] == s2.live;
    }
    assert Step(s2, ops[2], 0) == (s3, 0) by { assert s2.live[1 := Block(32, 0, 8, 1)] == s3.live; }
    assert Step(s3, ops[3], 0) == (s4, 0) by { assert s3.live[0 := Block(16, 8, 16, 0)] == s4.live; }
    assert HostOk(s1.m, 16, 32);
    hide Step, HostOk, New;
    FourStepsRun(s0, s1, s2, s3, s4, ops, hosts);
    CursorLeft(s4.m);
  }

  /** An allocation of nothing in a grown chunk leaves the bump pointer at its start, with the same effect. */
  lemma EmptyBlockEscapes()
    ensures var ops, hosts := [Alloc(16, 16), Alloc(4099, 1), Alloc(0, 16), Trim(0, 8)], [0, 80003, 32, 0];
            var s := New(15, 17, SIZE_MAX);
            && RunOk(ops, hosts) && HostsOk(s, ops, hosts) && Succeeds(s, ops, hosts)
            && !MemOk(Run(s, ops, hosts).0.m)
  {
    var ops, hosts := [Alloc(16, 16), Alloc(4099, 1), Alloc(0, 16), Trim(0, 8)], [0, 80003, 32, 0];
    var two, three := [Chunk(16, 32), Chunk(80016, 84119)], [Chunk(16, 32), Chunk(80016, 84119), Chunk(32, 8240)];
    var b0, b1, b2 := Block(16, 16, 16, 0), Block(80016, 4099, 1, 1), Block(32, 0, 16, 2);
    var s0 := New(15, 17, SIZE_MAX);
    var s1 := SeedTaken();
    var s2 := State(Mem(two, 1, 84115, 84119, 4115, 4119, 8192, SIZE_MAX), [b0, b1]);
    var s3 := State(Mem(three, 2, 32, 8240, 4115, 12327, 16384, SIZE_MAX), [b0, b1, b2]);
    var s4 := State(Mem(three, 2, 24, 8240, 4107, 12327, 16384, SIZE_MAX), [b0.(size := 8), b1, b2]);
    TakesSeed();
    assert Step(s1, ops[1], 80003) == (s2, 80016) by {
      assert Grown(s1.m, 4100, 80003).chunks == two;
      assert s1.live + [b1] == s2.live;
    }
    assert Step(s2, ops[2], 32) == (s3, 32) by {
      assert Grown(s2.m, 16, 32).chunks == three;
      assert s2.live + [b2] == s3.live;
    }
    assert Step(s3, ops[3], 0) == (s4, 0) by { assert s3.live[0 := b0.(size := 8)] == s4.live; }
    assert HostOk(s1.m, 4100, 80003) && HostOk(s2.m, 16, 32);
    hide Step, HostOk, New;
    FourStepsRun(s0, s1, s2, s3, s4, ops, hosts);
    CursorLeft(s4.m);
  }
}
