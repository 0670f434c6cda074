/** The bump arena: chunked allocation, tail-trim, reset and replay. */
module Arena {
  import opened Basics

  const PTRDIFF_MAX: nat := 0x7FFF_FFFF_FFFF_FFFF
  const MAX_ALIGN: nat := 16
  const DEFAULT_CHUNK: nat := 4096
  const MAX_CHUNK: nat := 96 * 1024

  /** The usable addresses [data, limit) of one memory block. */
  datatype Chunk = Chunk(data: nat, limit: nat)

  /** A block handed out: its addresses, and the index of the chunk it lies in. */
  datatype Block = Block(addr: nat, size: nat, align: nat, home: nat)

  /** The arena's fields; chunk 0 is the inline head, and no chunk means the head is not initialised. */
  datatype Mem = Mem(chunks: seq<Chunk>, cursor: nat, cur: nat, limit: nat,
                     used: int, reserved: nat, nextChunk: nat, cap: nat)

  // ---- the steps, as functions of the fields -------------------------------------------------

  predicate Fits(c: Chunk, bytes: nat, align: nat)
    requires align >= 1
  {
    var p := AlignUp(c.data, align);
    p <= c.limit && bytes <= c.limit - p
  }

  function AdvanceTo(m: Mem, i: nat): Mem
    requires i < |m.chunks|
  {
    m.(cursor := i, cur := m.chunks[i].data, limit := m.chunks[i].limit)
  }

  /** Host bytes a growth for min usable bytes asks for. */
  function GrowRaw(m: Mem, min: nat): nat {
    (if m.nextChunk < min then min else m.nextChunk) + MAX_ALIGN
  }

  function NewChunk(base: nat, raw: nat): Chunk { Chunk(AlignUp(base, MAX_ALIGN), base + raw) }

  predicate CanGrow(m: Mem, min: nat) {
    GrowRaw(m, min) <= PTRDIFF_MAX && m.reserved < m.cap && GrowRaw(m, min) <= m.cap - m.reserved
  }

  /** Growth with the host's block at base: the new chunk goes right after the current one. */
  function Grown(m: Mem, min: nat, base: nat): Mem
    requires m.chunks != [] ==> m.cursor < |m.chunks|
  {
    var c := NewChunk(base, GrowRaw(m, min));
    var at := if m.chunks == [] then 0 else m.cursor + 1;
    var chunks := m.chunks[..at] + [c] + m.chunks[at..];
    var next := if m.nextChunk < MAX_CHUNK then (if 2 * m.nextChunk < MAX_CHUNK then 2 * m.nextChunk else MAX_CHUNK) else m.nextChunk;
    AdvanceTo(m.(chunks := chunks, reserved := m.reserved + if c.data <= c.limit then c.limit - c.data else 0, nextChunk := next), at)
  }

  function Bump(m: Mem, bytes: nat, align: nat): (Mem, nat)
    requires align >= 1
  {
    var p := AlignUp(m.cur, align);
    (m.(cur := p + bytes, used := m.used + bytes), p)
  }

  predicate HasRoom(m: Mem, bytes: nat, align: nat)
    requires align >= 1
  {
    m.cur != 0 && Fits(Chunk(m.cur, m.limit), bytes, align)
  }

  predicate CanReuse(m: Mem, bytes: nat, align: nat)
    requires align >= 1
  {
    m.cursor + 1 < |m.chunks| && Fits(m.chunks[m.cursor + 1], bytes, align)
  }

  /** The arena positioned at a chunk to allocate from when the current one has no room: the next one if it fits,
      else a new one from the host's block (0: no memory). */
  function ChunkFor(m: Mem, bytes: nat, align: nat, host: nat): (bool, Mem)
    requires align >= 1 && (m.chunks != [] ==> m.cursor < |m.chunks|)
  {
    if CanReuse(m, bytes, align) then (true, AdvanceTo(m, m.cursor + 1))
    else if bytes > SIZE_MAX - align || !CanGrow(m, bytes + align) || host == 0 then (false, m)
    else (true, Grown(m, bytes + align, host))
  }

  /** An allocation, given what the host would answer to a growth. The address is 0 on failure. */
  function Allocated(m: Mem, bytes: nat, align: nat, host: nat): (Mem, nat)
    requires align >= 1 && (m.chunks != [] ==> m.cursor < |m.chunks|)
  {
    if HasRoom(m, bytes, align) then Bump(m, bytes, align) else
      var (ok, m') := ChunkFor(m, bytes, align, host);
      if ok then Bump(m', bytes, align) else (m, 0)
  }

  function Shrunk(m: Mem, ptr: nat, oldBytes: nat, newBytes: nat): Mem {
    if ptr == 0 || newBytes > oldBytes || ptr + oldBytes != m.cur then m
    else m.(cur := ptr + newBytes, used := m.used - (oldBytes - newBytes))
  }

  function Rewound(m: Mem): Mem {
    var r := m.(used := 0, cursor := 0);
    if m.chunks == [] then r.(cur := 0, limit := 0) else AdvanceTo(r, 0)
  }

  // ---- what holds in every reachable state ---------------------------------------------------

  function Usable(chunks: seq<Chunk>): int {
    if chunks == [] then 0 else chunks[0].limit - chunks[0].data + Usable(chunks[1..])
  }

  function Sizes(live: seq<Block>): nat {
    if live == [] then 0 else live[0].size + Sizes(live[1..])
  }

  predicate Apart(a: Chunk, b: Chunk) { a.limit <= b.data || b.limit <= a.data }

  ghost predicate ChunksOk(chunks: seq<Chunk>) {
    && (forall i :: 0 <= i < |chunks| ==> 0 < chunks[i].data < chunks[i].limit && chunks[i].data % MAX_ALIGN == 0)
    && (forall i, j :: 0 <= i < j < |chunks| ==> Apart(chunks[i], chunks[j]))
  }

  ghost predicate MemOk(m: Mem) {
    && ChunksOk(m.chunks)
    && m.reserved == Usable(m.chunks)
    && 1 <= m.nextChunk <= MAX_CHUNK
    && (if m.chunks == [] then m.cursor == m.cur == m.limit == 0 else
          m.cursor < |m.chunks| && m.limit == m.chunks[m.cursor].limit && m.chunks[m.cursor].data <= m.cur <= m.limit)
  }

  /** Where a live block may be: aligned, inside its chunk, at or before the cursor, below the bump pointer. */
  ghost predicate Placed(m: Mem, b: Block) {
    && b.align >= 1 && b.addr % b.align == 0
    && b.home <= m.cursor && b.home < |m.chunks|
    && m.chunks[b.home].data <= b.addr && b.addr + b.size <= m.chunks[b.home].limit
    && (b.home == m.cursor && b.size > 0 ==> b.addr + b.size <= m.cur)
  }

  predicate BlocksApart(a: Block, b: Block) {
    a.size == 0 || b.size == 0 || a.addr + a.size <= b.addr || b.addr + b.size <= a.addr
  }

  ghost predicate LiveOk(m: Mem, live: seq<Block>) {
    && m.used == Sizes(live)
    && (forall k :: 0 <= k < |live| ==> Placed(m, live[k]))
    && (forall j, k :: 0 <= j < k < |live| ==> BlocksApart(live[j], live[k]))
  }

  /** The bump pointer has left the start of every chunk but the first: so it is after every growth that is used. */
  ghost predicate Grounded(m: Mem) {
    m.chunks != [] && 0 < m.cursor < |m.chunks| ==> m.chunks[m.cursor].data < m.cur
  }

  /** A host block for a growth: not null and away from every chunk. */
  ghost predicate HostOk(m: Mem, min: nat, host: nat) {
    host != 0 ==> forall i :: 0 <= i < |m.chunks| ==> Apart(Chunk(host, host + GrowRaw(m, min)), m.chunks[i])
  }

  lemma {:induction false} UsableInsert(a: seq<Chunk>, c: Chunk, b: seq<Chunk>)
    ensures Usable(a + [c] + b) == Usable(a + b) + c.limit - c.data
  {
    if a == [] {
      assert [] + [c] + b == [c] + b && [] + b == b && ([c] + b)[1..] == b;
    } else {
      UsableInsert(a[1..], c, b);
      assert (a + [c] + b)[1..] == a[1..] + [c] + b && (a + b)[1..] == a[1..] + b;
    }
  }

  lemma {:induction false} SizesAppend(live: seq<Block>, b: Block)
    ensures Sizes(live + [b]) == Sizes(live) + b.size
  {
    if live == [] {
      assert live + [b] == [b] && [b][1..] == [];
    } else {
      SizesAppend(live[1..], b);
      assert (live + [b])[1..] == live[1..] + [b];
    }
  }

  lemma {:induction false} SizesUpdate(live: seq<Block>, k: nat, b: Block)
    requires k < |live|
    ensures Sizes(live[k := b]) == Sizes(live) - live[k].size + b.size
  {
    if k > 0 {
      SizesUpdate(live[1..], k - 1, b);
      assert live[k := b][1..] == live[1..][k - 1 := b];
    } else {
      assert live[k := b][1..] == live[1..];
    }
  }

  lemma UsableInserted(chunks: seq<Chunk>, at: nat, c: Chunk)
    requires at <= |chunks|
    ensures Usable(chunks[..at] + [c] + chunks[at..]) == Usable(chunks) + c.limit - c.data
  {
    UsableInsert(chunks[..at], c, chunks[at..]);
    assert chunks[..at] + chunks[at..] == chunks;
  }

  lemma ApartSym(a: Chunk, b: Chunk)
    ensures Apart(a, b) <==> Apart(b, a)
  {
  }

  lemma InsertOk(chunks: seq<Chunk>, at: nat, c: Chunk)
    requires ChunksOk(chunks) && at <= |chunks|
    requires 0 < c.data < c.limit && c.data % MAX_ALIGN == 0
    requires forall i :: 0 <= i < |chunks| ==> Apart(c, chunks[i])
    ensures ChunksOk(chunks[..at] + [c] + chunks[at..])
    ensures Usable(chunks[..at] + [c] + chunks[at..]) == Usable(chunks) + c.limit - c.data
  {
    hide Usable, Apart;
    UsableInserted(chunks, at, c);
    var r := chunks[..at] + [c] + chunks[at..];
    forall i, j | 0 <= i < j < |r| ensures Apart(r[i], r[j]) {
      InsertApart(chunks, at, c, i, j);
    }
  }

  lemma InsertApart(chunks: seq<Chunk>, at: nat, c: Chunk, i: nat, j: nat)
    requires ChunksOk(chunks) && at <= |chunks| && i < j <= |chunks|
    requires forall i :: 0 <= i < |chunks| ==> Apart(c, chunks[i])
    ensures var r := chunks[..at] + [c] + chunks[at..]; Apart(r[i], r[j])
  {
    hide Apart;
    var r := chunks[..at] + [c] + chunks[at..];
    assert r[i] == if i < at then chunks[i] else if i == at then c else chunks[i - 1];
    assert r[j] == if j < at then chunks[j] else if j == at then c else chunks[j - 1];
    if i == at {
      assert Apart(c, chunks[j - 1]);
    } else if j == at {
      ApartSym(c, chunks[i]);
    } else {
      assert Apart(chunks[if i < at then i else i - 1], chunks[if j < at then j else j - 1]);
    }
  }

  lemma GrownOk(m: Mem, min: nat, base: nat)
    requires MemOk(m) && base != 0 && HostOk(m, min, base)
    ensures var m' := Grown(m, min, base);
            && MemOk(m') && m'.chunks != []
            && m'.cursor == (if m.chunks == [] then 0 else m.cursor + 1)
            && m'.cur == m'.chunks[m'.cursor].data
            && m'.limit - m'.cur > min
            && m'.used == m.used && m'.cap == m.cap
            && m'.reserved <= m.reserved + GrowRaw(m, min)
            && (m.chunks != [] ==> m'.chunks[..m.cursor + 1] == m.chunks[..m.cursor + 1])
  {
    var raw := GrowRaw(m, min);
    var c := NewChunk(base, raw);
    var at := if m.chunks == [] then 0 else m.cursor + 1;
    forall i | 0 <= i < |m.chunks| ensures Apart(c, m.chunks[i]) {
      assert Apart(Chunk(base, base + raw), m.chunks[i]);
    }
    InsertOk(m.chunks, at, c);
    hide ChunksOk, Usable, Apart;
    var m' := Grown(m, min, base);
    assert m'.chunks == m.chunks[..at] + [c] + m.chunks[at..] && m'.chunks[at] == c;
  }

  /** Bumping within the current chunk hands out an aligned block inside it, away from every live block. */
  lemma BumpOk(m: Mem, live: seq<Block>, bytes: nat, align: nat)
    requires MemOk(m) && LiveOk(m, live) && m.chunks != [] && align >= 1
    requires Fits(Chunk(m.cur, m.limit), bytes, align)
    ensures var (m', p) := Bump(m, bytes, align);
            var b := Block(p, bytes, align, m.cursor);
            MemOk(m') && LiveOk(m', live + [b]) && (bytes > 0 ==> Grounded(m')) && p != 0
  {
    var (m', p) := Bump(m, bytes, align);
    var b := Block(p, bytes, align, m.cursor);
    SizesAppend(live, b);
    forall k | 0 <= k < |live| ensures BlocksApart(live[k], b) && Placed(m', live[k]) {
      BumpApart(m, live[k], bytes, align);
    }
    hide Sizes, Usable, ChunksOk;
  }

  /** A block already live stays where it may be, and is apart from the new one. */
  lemma BumpApart(m: Mem, earlier: Block, bytes: nat, align: nat)
    requires MemOk(m) && Placed(m, earlier) && m.chunks != [] && align >= 1 && Fits(Chunk(m.cur, m.limit), bytes, align)
    ensures var (m', p) := Bump(m, bytes, align);
            BlocksApart(earlier, Block(p, bytes, align, m.cursor)) && Placed(m', earlier)
  {
    hide Usable;
    if earlier.home != m.cursor {
      assert Apart(m.chunks[earlier.home], m.chunks[m.cursor]);
    }
  }

  /** Moving to the next chunk keeps every live block placed. */
  lemma AdvanceOk(m: Mem, live: seq<Block>)
    requires MemOk(m) && LiveOk(m, live) && m.cursor + 1 < |m.chunks|
    ensures MemOk(AdvanceTo(m, m.cursor + 1)) && LiveOk(AdvanceTo(m, m.cursor + 1), live)
  {
    forall k | 0 <= k < |live| ensures Placed(AdvanceTo(m, m.cursor + 1), live[k]) {
      assert Placed(m, live[k]);
    }
  }

  lemma GrownLive(m: Mem, live: seq<Block>, min: nat, base: nat)
    requires MemOk(m) && LiveOk(m, live) && base != 0 && HostOk(m, min, base)
    ensures LiveOk(Grown(m, min, base), live)
  {
    GrownOk(m, min, base);
    var m' := Grown(m, min, base);
    forall k | 0 <= k < |live| ensures Placed(m', live[k]) {
      assert Placed(m, live[k]);
      var h := live[k].home;
      assert m'.chunks[h] == m'.chunks[..m.cursor + 1][h] == m.chunks[h];
    }
  }

  /** The fast path: room in the current chunk, which the bump pointer takes. */
  lemma RoomAllocates(m: Mem, bytes: nat, align: nat, host: nat)
    requires align >= 1 && MemOk(m)
    ensures m.chunks != [] ==> m.cursor < |m.chunks|
    ensures var p := AlignUp(m.cur, align);
            && (HasRoom(m, bytes, align) <==> m.cur != 0 && p <= m.limit && bytes <= m.limit - p)
            && (HasRoom(m, bytes, align) ==>
                 Allocated(m, bytes, align, host) == (m.(cur := p + bytes, used := m.used + bytes), p))
  {
    CursorInRange(m);
    hide AlignUp, MemOk, ChunkFor;
  }

  lemma BumpFields(m: Mem, bytes: nat, align: nat)
    requires align >= 1
    ensures var r := Bump(m, bytes, align).0;
            && r.chunks == m.chunks && r.cursor == m.cursor && r.reserved == m.reserved && r.cap == m.cap
            && Bump(m, bytes, align).1 == AlignUp(m.cur, align)
            && r == m.(cur := AlignUp(m.cur, align) + bytes, used := m.used + bytes)
  {
  }

  /** What an allocation step from m to m' with address p keeps. */
  ghost predicate Kept(m: Mem, live: seq<Block>, bytes: nat, align: nat, m': Mem, p: nat) {
    && MemOk(m')
    && m'.cap == m.cap && (m.reserved <= m.cap ==> m'.reserved <= m'.cap)
    && (p == 0 ==> m' == m)
    && (p != 0 ==> LiveOk(m', live + [Block(p, bytes, align, m'.cursor)]) && (bytes > 0 ==> Grounded(m')))
  }

  lemma RoomKeeps(m: Mem, live: seq<Block>, bytes: nat, align: nat)
    requires MemOk(m) && LiveOk(m, live) && align >= 1 && HasRoom(m, bytes, align)
    ensures Kept(m, live, bytes, align, Bump(m, bytes, align).0, Bump(m, bytes, align).1)
  {
    BumpOk(m, live, bytes, align);
    hide LiveOk;
  }

  lemma ReuseKeeps(m: Mem, live: seq<Block>, bytes: nat, align: nat)
    requires MemOk(m) && LiveOk(m, live) && align >= 1 && CanReuse(m, bytes, align)
    ensures var r := Bump(AdvanceTo(m, m.cursor + 1), bytes, align); Kept(m, live, bytes, align, r.0, r.1)
  {
    AdvanceOk(m, live);
    BumpOk(AdvanceTo(m, m.cursor + 1), live, bytes, align);
    hide LiveOk, MemOk;
  }

  lemma WideFits(c: Chunk, bytes: nat, align: nat)
    requires align >= 1 && c.data + bytes + align <= c.limit
    ensures Fits(c, bytes, align)
  {
  }

  lemma GrowKeeps(m: Mem, live: seq<Block>, bytes: nat, align: nat, host: nat)
    requires MemOk(m) && LiveOk(m, live) && align >= 1 && HostOk(m, bytes + align, host)
    requires CanGrow(m, bytes + align) && host != 0
    ensures var r := Bump(Grown(m, bytes + align, host), bytes, align); Kept(m, live, bytes, align, r.0, r.1)
  {
    hide *;
    CursorInRange(m);
    GrownOk(m, bytes + align, host);
    GrownLive(m, live, bytes + align, host);
    var m' := Grown(m, bytes + align, host);
    WideFits(Chunk(m'.cur, m'.limit), bytes, align);
    BumpFields(m', bytes, align);
    BumpOk(m', live, bytes, align);
    GrowWithinCap(m, bytes + align);
    KeptIf(m, live, bytes, align, Bump(m', bytes, align).0, Bump(m', bytes, align).1);
  }

  /** Grown, field by field, with chunks as the two branches of the growth build them. */
  lemma GrownFields(m: Mem, min: nat, base: nat, c: Chunk)
    requires m.chunks != [] ==> m.cursor < |m.chunks|
    requires c == NewChunk(base, GrowRaw(m, min)) && c.data <= c.limit
    ensures var m' := Grown(m, min, base);
            && m'.chunks == (if m.chunks == [] then [c] else m.chunks[..m.cursor + 1] + [c] + m.chunks[m.cursor + 1..])
            && m'.cursor == (if m.chunks == [] then 0 else m.cursor + 1)
            && m'.cur == c.data && m'.limit == c.limit
            && m'.used == m.used && m'.cap == m.cap && m'.reserved == m.reserved + (c.limit - c.data)
            && m'.nextChunk == (if m.nextChunk < MAX_CHUNK then (if 2 * m.nextChunk < MAX_CHUNK then 2 * m.nextChunk else MAX_CHUNK)
                                else m.nextChunk)
  {
    hide AlignUp;
    if m.chunks == [] {
      assert m.chunks[..0] + [c] + m.chunks[0..] == [c];
    }
  }

  lemma CursorInRange(m: Mem)
    requires MemOk(m)
    ensures m.chunks != [] ==> m.cursor < |m.chunks|
  {
  }

  lemma GrowWithinCap(m: Mem, min: nat)
    requires CanGrow(m, min)
    ensures m.reserved + GrowRaw(m, min) <= m.cap
  {
  }

  lemma KeptIf(m: Mem, live: seq<Block>, bytes: nat, align: nat, m': Mem, p: nat)
    requires MemOk(m') && m'.cap == m.cap && m'.reserved <= m'.cap && p != 0
    requires LiveOk(m', live + [Block(p, bytes, align, m'.cursor)]) && (bytes > 0 ==> Grounded(m'))
    ensures Kept(m, live, bytes, align, m', p)
  {
  }

  /** Every allocation keeps the arena's invariants; on success the new block joins the live ones, on failure
      nothing changes; the capacity limit is kept if it held. */
  lemma AllocateKeeps(m: Mem, live: seq<Block>, bytes: nat, align: nat, host: nat)
    requires MemOk(m) && LiveOk(m, live) && align >= 1 && HostOk(m, bytes + align, host)
    ensures var (m', p) := Allocated(m, bytes, align, host); Kept(m, live, bytes, align, m', p)
  {
    if HasRoom(m, bytes, align) {
      RoomKeeps(m, live, bytes, align);
    } else if CanReuse(m, bytes, align) {
      ReuseKeeps(m, live, bytes, align);
    } else if !(bytes > SIZE_MAX - align || !CanGrow(m, bytes + align) || host == 0) {
      GrowKeeps(m, live, bytes, align, host);
    }
    hide LiveOk, HasRoom, CanReuse, CanGrow, Grown, HostOk;
  }

  // ---- where an allocation goes, and when it fails -------------------------------------------

  /** An aligned block of the bytes at a lies in [lo, hi). */
  predicate Stands(a: nat, lo: nat, hi: nat, bytes: nat, align: nat)
    requires align >= 1
  {
    lo <= a && a % align == 0 && a + bytes <= hi
  }

  ghost predicate HasPlace(lo: nat, hi: nat, bytes: nat, align: nat)
    requires align >= 1
  {
    exists a :: Stands(a, lo, hi, bytes, align)
  }

  /** And at no lower address. */
  ghost predicate StandsFirst(a: nat, lo: nat, hi: nat, bytes: nat, align: nat)
    requires align >= 1
  {
    Stands(a, lo, hi, bytes, align) && forall b :: Stands(b, lo, hi, bytes, align) ==> a <= b
  }

  lemma FitsIsRoom(c: Chunk, bytes: nat, align: nat)
    requires align >= 1
    ensures Fits(c, bytes, align) <==> HasPlace(c.data, c.limit, bytes, align)
    ensures Fits(c, bytes, align) ==> StandsFirst(AlignUp(c.data, align), c.data, c.limit, bytes, align)
  {
    AlignUpLeast(c.data, align);
    if Fits(c, bytes, align) {
      assert Stands(AlignUp(c.data, align), c.data, c.limit, bytes, align);
    }
  }

  /** The host bytes asked for: the next chunk size, or what the block needs if that is more, and 16 to align. */
  function Wanted(m: Mem, bytes: nat, align: nat): nat {
    16 + if bytes + align > m.nextChunk then bytes + align else m.nextChunk
  }

  /** No growth is tried past the host's sizes or the capacity limit, and none succeeds without memory. */
  predicate NoGrowth(m: Mem, bytes: nat, align: nat, host: nat) {
    || bytes + align > 0xFFFF_FFFF_FFFF_FFFF || Wanted(m, bytes, align) > 0x7FFF_FFFF_FFFF_FFFF
    || m.reserved + Wanted(m, bytes, align) > m.cap || host == 0
  }

  /** The new chunk after the current one, from the first multiple of 16 in the host's block on, with the block in it. */
  ghost predicate GrewFor(m: Mem, bytes: nat, align: nat, host: nat, m': Mem, p: nat)
    requires align >= 1 && (m.chunks != [] ==> m.cursor < |m.chunks|)
  {
    var at, end := if m.chunks == [] then 0 else m.cursor + 1, host + Wanted(m, bytes, align);
    && m'.cursor == at < |m'.chunks|
    && var c := m'.chunks[at];
       && m'.chunks == m.chunks[..at] + [c] + m.chunks[at..]
       && StandsFirst(c.data, host, end, 0, 16) && c.limit == end
       && StandsFirst(p, c.data, end, bytes, align)
       && m'.cur == p + bytes && m'.limit == end && m'.used == m.used + bytes && m'.cap == m.cap
       && m'.reserved == m.reserved + (end - c.data)
       && m'.nextChunk == if 2 * m.nextChunk < 98304 then 2 * m.nextChunk else 98304
  }

  /** For every request: the first place in the rest of the current chunk, else the first in the next chunk, else the
      first in a chunk newly grown, else failure, which changes nothing. */
  lemma AllocatesFirst(m: Mem, bytes: nat, align: nat, host: nat)
    requires MemOk(m) && align >= 1
    ensures m.chunks != [] ==> m.cursor < |m.chunks|
    ensures var (m', p) := Allocated(m, bytes, align, host);
            if m.chunks != [] && HasPlace(m.cur, m.limit, bytes, align) then
              && StandsFirst(p, m.cur, m.limit, bytes, align)
              && m' == m.(cur := p + bytes, used := m.used + bytes)
            else if m.cursor + 1 < |m.chunks| && HasPlace(m.chunks[m.cursor + 1].data, m.chunks[m.cursor + 1].limit, bytes, align) then
              && StandsFirst(p, m.chunks[m.cursor + 1].data, m.chunks[m.cursor + 1].limit, bytes, align)
              && m' == m.(cursor := m.cursor + 1, cur := p + bytes, limit := m.chunks[m.cursor + 1].limit, used := m.used + bytes)
            else if NoGrowth(m, bytes, align, host) then p == 0 && m' == m
            else GrewFor(m, bytes, align, host, m', p)
  {
    CursorInRange(m);
    CurIsNull(m);
    if m.chunks != [] {
      FitsIsRoom(Chunk(m.cur, m.limit), bytes, align);
    }
    if m.cursor + 1 < |m.chunks| {
      FitsIsRoom(m.chunks[m.cursor + 1], bytes, align);
    }
    if !HasRoom(m, bytes, align) && !CanReuse(m, bytes, align) {
      NoGrowthIs(m, bytes, align, host);
      if !NoGrowth(m, bytes, align, host) {
        GrowsFor(m, bytes, align, host);
      }
    }
    hide MemOk, Fits, HasPlace, StandsFirst, Grown, CanGrow, NoGrowth, AlignUp, GrewFor;
  }

  lemma CurIsNull(m: Mem)
    requires MemOk(m)
    ensures m.cur == 0 <==> m.chunks == []
  {
  }

  lemma NoGrowthIs(m: Mem, bytes: nat, align: nat, host: nat)
    ensures NoGrowth(m, bytes, align, host)
        <==> (align > SIZE_MAX || bytes > SIZE_MAX - align || !CanGrow(m, bytes + align) || host == 0)
    ensures GrowRaw(m, bytes + align) == Wanted(m, bytes, align)
  {
  }

  lemma GrowsFor(m: Mem, bytes: nat, align: nat, host: nat)
    requires MemOk(m) && align >= 1 && host != 0
    requires m.chunks != [] ==> m.cursor < |m.chunks|
    ensures var (m', p) := Bump(Grown(m, bytes + align, host), bytes, align);
            GrewFor(m, bytes, align, host, m', p)
  {
    var end := host + Wanted(m, bytes, align);
    var c := Chunk(AlignUp(host, MAX_ALIGN), end);
    FitsIsRoom(Chunk(host, end), 0, 16);
    WideFits(c, bytes, align);
    FitsIsRoom(c, bytes, align);
    ChunkSizeIsCapped(m);
    NoGrowthIs(m, bytes, align, host);
    hide AlignUp, StandsFirst, MemOk, HasPlace, Fits;
    GrownFields(m, bytes + align, host, c);
    BumpFields(Grown(m, bytes + align, host), bytes, align);
    hide Grown, Bump;
    var at := if m.chunks == [] then 0 else m.cursor + 1;
    assert m.chunks == [] ==> m.chunks[..0] + [c] + m.chunks[0..] == [c];
  }

  lemma ChunkSizeIsCapped(m: Mem)
    requires MemOk(m)
    ensures m.nextChunk <= MAX_CHUNK
  {
  }

  /** A block that ends at the bump pointer of a grounded arena lies in the current chunk. */
  lemma LastIsCurrent(m: Mem, b: Block)
    requires MemOk(m) && Grounded(m) && Placed(m, b) && b.size > 0 && b.addr + b.size == m.cur
    ensures b.home == m.cursor
  {
    assert b.home < m.cursor ==> Apart(m.chunks[b.home], m.chunks[m.cursor]);
  }

  lemma ShrinkPlaces(m: Mem, live: seq<Block>, k: nat, newBytes: nat, m': Mem)
    requires MemOk(m) && LiveOk(m, live) && k < |live| && 0 < live[k].size && newBytes <= live[k].size
    requires live[k].addr + live[k].size == m.cur && live[k].home == m.cursor
    requires m' == Shrunk(m, live[k].addr, live[k].size, newBytes)
    ensures MemOk(m')
    ensures forall j :: 0 <= j < |live| ==> Placed(m', if j == k then live[k].(size := newBytes) else live[j])
  {
    hide ChunksOk, Usable, Sizes;
    assert Placed(m, live[k]);
    forall j | 0 <= j < |live| ensures Placed(m', if j == k then live[k].(size := newBytes) else live[j]) {
      assert Placed(m, live[j]);
      if j != k {
        assert BlocksApart(live[if j < k then j else k], live[if j < k then k else j]);
      }
    }
  }

  lemma AddrOfLive(m: Mem, live: seq<Block>, k: nat)
    requires MemOk(m) && LiveOk(m, live) && k < |live|
    ensures live[k].addr != 0
  {
    assert Placed(m, live[k]);
    AddrNotNull(m, live[k]);
  }

  /** Trimming a live block by its true size takes back its own unused tail if it is the last one, and is otherwise
      without effect; no other block changes. */
  lemma ShrinkKeeps(m: Mem, live: seq<Block>, k: nat, newBytes: nat)
    requires MemOk(m) && LiveOk(m, live) && Grounded(m) && k < |live| && newBytes <= live[k].size
    ensures var b := live[k];
            var m' := Shrunk(m, b.addr, b.size, newBytes);
            var live' := if b.addr + b.size == m.cur then live[k := b.(size := newBytes)] else live;
            && MemOk(m') && LiveOk(m', live') && m'.reserved == m.reserved && m'.cap == m.cap
            && (newBytes > 0 ==> Grounded(m'))
            && m' == if b.addr + b.size == m.cur then m.(cur := b.addr + newBytes, used := m.used - (b.size - newBytes)) else m
  {
    hide MemOk, LiveOk, Grounded;
    var b := live[k];
    if b.addr + b.size == m.cur && b.size > 0 {
      ShrinkGrounded(m, live, k, newBytes, Shrunk(m, b.addr, b.size, newBytes));
      AddrOfLive(m, live, k);
    } else {
      assert live[k := b.(size := b.size)] == live;
    }
  }

  /** The live blocks after a trim: the k-th is shorter if it was the last one. */
  function TrimmedLive(live: seq<Block>, cur: nat, ptr: nat, oldBytes: nat, newBytes: nat, k: nat): seq<Block> {
    if ptr != 0 && newBytes < oldBytes && ptr + oldBytes == cur && k < |live|
    then live[k := live[k].(size := newBytes)] else live
  }

  /** The block ends at the bump pointer though it lies in an earlier chunk: two chunks adjoin, and the bump pointer
      stands at the start of the second. */
  ghost predicate Touches(m: Mem, b: Block) {
    b.addr + b.size == m.cur && b.home != m.cursor
  }

  /** Exactly when a trim of a live block by its true size keeps the arena in order. */
  lemma ShrinkExactly(m: Mem, live: seq<Block>, k: nat, newBytes: nat)
    requires MemOk(m) && LiveOk(m, live) && k < |live| && newBytes < live[k].size
    ensures var b := live[k];
            (MemOk(Shrunk(m, b.addr, b.size, newBytes))
             && LiveOk(Shrunk(m, b.addr, b.size, newBytes), TrimmedLive(live, m.cur, b.addr, b.size, newBytes, k)))
            <==> !Touches(m, b)
  {
    var b := live[k];
    assert Placed(m, b);
    AddrNotNull(m, b);
    if b.addr + b.size == m.cur {
      if b.home == m.cursor {
        ShrinkLive(m, live, k, newBytes, Shrunk(m, b.addr, b.size, newBytes));
      } else {
        TrimEscapes(m, b, newBytes);
      }
    }
    hide MemOk, LiveOk;
  }

  lemma TrimEscapes(m: Mem, b: Block, newBytes: nat)
    requires MemOk(m) && Placed(m, b) && newBytes < b.size && b.addr + b.size == m.cur && b.home != m.cursor
    ensures !MemOk(Shrunk(m, b.addr, b.size, newBytes))
  {
    AddrNotNull(m, b);
    assert Apart(m.chunks[b.home], m.chunks[m.cursor]);
  }

  /** A trim called by address and size: whether it keeps the arena in order, when it names a live block truly or
      takes nothing back. In a grounded arena it always does. */
  lemma ShrinkEffect(m: Mem, live: seq<Block>, ptr: nat, oldBytes: nat, newBytes: nat, k: nat)
    requires MemOk(m) && LiveOk(m, live)
    requires ptr != 0 && newBytes < oldBytes ==> k < |live| && live[k].addr == ptr && live[k].size == oldBytes
    ensures var m' := Shrunk(m, ptr, oldBytes, newBytes);
            (MemOk(m') && LiveOk(m', TrimmedLive(live, m.cur, ptr, oldBytes, newBytes, k)))
            <==> !(ptr != 0 && newBytes < oldBytes && Touches(m, live[k]))
  {
    hide MemOk, LiveOk, Touches;
    if ptr != 0 && newBytes < oldBytes {
      ShrinkExactly(m, live, k, newBytes);
    } else {
      assert Shrunk(m, ptr, oldBytes, newBytes) == m;
    }
  }

  /** In a grounded arena no block touches, and a trim to something leaves it grounded. */
  lemma GroundedTrims(m: Mem, live: seq<Block>, ptr: nat, oldBytes: nat, newBytes: nat, k: nat)
    requires MemOk(m) && LiveOk(m, live) && Grounded(m)
    requires ptr != 0 && newBytes < oldBytes ==> k < |live| && live[k].addr == ptr && live[k].size == oldBytes
    ensures ptr != 0 && newBytes < oldBytes ==> !Touches(m, live[k])
    ensures newBytes > 0 || newBytes == oldBytes ==> Grounded(Shrunk(m, ptr, oldBytes, newBytes))
  {
    if ptr != 0 && newBytes < oldBytes {
      assert Placed(m, live[k]);
      if ptr + oldBytes == m.cur {
        LastIsCurrent(m, live[k]);
      }
      hide LiveOk;
      ShrinkKeeps(m, live, k, newBytes);
    }
  }

  lemma ShrinkGrounded(m: Mem, live: seq<Block>, k: nat, newBytes: nat, m': Mem)
    requires MemOk(m) && LiveOk(m, live) && Grounded(m) && k < |live| && 0 < live[k].size && newBytes <= live[k].size
    requires live[k].addr + live[k].size == m.cur && m' == Shrunk(m, live[k].addr, live[k].size, newBytes)
    ensures MemOk(m') && LiveOk(m', live[k := live[k].(size := newBytes)]) && (newBytes > 0 ==> Grounded(m'))
  {
    assert Placed(m, live[k]);
    LastIsCurrent(m, live[k]);
    hide MemOk, Sizes;
    ShrinkLive(m, live, k, newBytes, m');
  }

  lemma ShrinkLive(m: Mem, live: seq<Block>, k: nat, newBytes: nat, m': Mem)
    requires MemOk(m) && LiveOk(m, live) && k < |live| && 0 < live[k].size && newBytes <= live[k].size
    requires live[k].addr + live[k].size == m.cur && live[k].home == m.cursor
    requires m' == Shrunk(m, live[k].addr, live[k].size, newBytes)
    ensures MemOk(m') && LiveOk(m', live[k := live[k].(size := newBytes)]) && (newBytes > 0 ==> Grounded(m'))
  {
    var live' := live[k := live[k].(size := newBytes)];
    ShrinkPlaces(m, live, k, newBytes, m');
    SizesUpdate(live, k, live[k].(size := newBytes));
    assert Placed(m, live[k]);
    AddrNotNull(m, live[k]);
    assert newBytes > 0 ==> Grounded(m');
    hide MemOk, Sizes;
    forall i, j | 0 <= i < j < |live| ensures BlocksApart(live'[i], live'[j]) {
      assert BlocksApart(live[i], live[j]);
    }
    hide BlocksApart, Placed;
  }

  lemma AddrNotNull(m: Mem, b: Block)
    requires MemOk(m) && Placed(m, b)
    ensures b.addr != 0
  {
  }

  lemma RewindKeeps(m: Mem)
    requires MemOk(m)
    ensures MemOk(Rewound(m)) && LiveOk(Rewound(m), []) && Grounded(Rewound(m))
    ensures Rewound(m).chunks == m.chunks && Rewound(m).reserved == m.reserved && Rewound(m).cap == m.cap
    ensures Rewound(m).nextChunk == m.nextChunk
    ensures m.chunks != [] ==> Rewound(m).cursor == 0 && Rewound(m).cur == m.chunks[0].data
  {
  }

  /** The division test for too many elements is exact. */
  lemma TooMany(count: nat, elemSize: nat)
    requires elemSize >= 1
    ensures count > SIZE_MAX / elemSize <==> count * elemSize > SIZE_MAX
    ensures count > 0 ==> count * elemSize > 0
  {
    var q := SIZE_MAX / elemSize;
    assert SIZE_MAX == q * elemSize + SIZE_MAX % elemSize;
    if count > q {
      Scales(q + 1, count, elemSize);
      Scales(q, q, elemSize);
    } else {
      Scales(count, q, elemSize);
    }
    if count > 0 {
      Scales(1, count, elemSize);
    }
  }

  // ---- a new arena ---------------------------------------------------------------------------

  /** An arena over a caller's buffer (0: none); a buffer too small to align is ignored. */
  function Seeded(buffer: nat, size: nat): Mem {
    var none := Mem([], 0, 0, 0, 0, 0, DEFAULT_CHUNK, SIZE_MAX);
    if buffer != 0 && size > MAX_ALIGN then
      var c := Chunk(AlignUp(buffer, MAX_ALIGN), buffer + size);
      AdvanceTo(none.(chunks := [c], reserved := c.limit - c.data), 0)
    else none
  }

  lemma SeededOk(buffer: nat, size: nat)
    ensures MemOk(Seeded(buffer, size)) && LiveOk(Seeded(buffer, size), []) && Grounded(Seeded(buffer, size))
  {
    if buffer != 0 && size > MAX_ALIGN {
      var c := Chunk(AlignUp(buffer, MAX_ALIGN), buffer + size);
      assert [c][1..] == [];
    }
  }

  // ---- the class -----------------------------------------------------------------------------

  class Arena {
    var chunks: seq<Chunk>
    var cursor: nat
    var cur: nat
    var limit: nat
    var used: int
    var reserved: nat
    var nextChunk: nat
    var cap: nat
    ghost var live: seq<Block>

    function View(): Mem
      reads this
    {
      Mem(chunks, cursor, cur, limit, used, reserved, nextChunk, cap)
    }

    ghost predicate Valid()
      reads this
    {
      MemOk(View()) && LiveOk(View(), live)
    }

    constructor (buffer: nat, size: nat)
      ensures Valid() && Grounded(View()) && live == [] && View() == Seeded(buffer, size)
    {
      chunks, cursor, cur, limit, used, reserved := [], 0, 0, 0, 0, 0;
      nextChunk, cap, live := DEFAULT_CHUNK, SIZE_MAX, [];
      new;
      SeededOk(buffer, size);
      if buffer != 0 && size > MAX_ALIGN {
        var data := AlignUp(buffer, MAX_ALIGN);
        chunks := [Chunk(data, buffer + size)];
        AdvanceToChunk(0);
        reserved := reserved + (buffer + size - data);
      }
    }

    method AdvanceToChunk(i: nat)
      requires i < |chunks|
      modifies this`cursor, this`cur, this`limit
      ensures View() == AdvanceTo(old(View()), i)
    {
      cursor := i;
      cur := chunks[i].data;
      limit := chunks[i].limit;
    }

    method Grow(min: nat, host: nat) returns (ok: bool)
      requires MemOk(View()) && HostOk(View(), min, host)
      modifies this`chunks, this`cursor, this`cur, this`limit, this`reserved, this`nextChunk
      ensures ok == (CanGrow(old(View()), min) && host != 0)
      ensures View() == if ok then Grown(old(View()), min, host) else old(View())
    {
      CursorInRange(View());
      hide MemOk, HostOk, AlignUp, Grown;
      var want := if nextChunk < min then min else nextChunk;
      if want > PTRDIFF_MAX - MAX_ALIGN {
        return false;
      }
      var raw := want + MAX_ALIGN;
      if reserved >= cap || raw > cap - reserved {
        return false;
      }
      if host == 0 {
        return false;
      }
      var c := Chunk(AlignUp(host, MAX_ALIGN), host + raw);
      GrownFields(View(), min, host, c);
      reserved := reserved + (c.limit - c.data);
      if chunks == [] {
        chunks, cursor := [c], 0;
      } else {
        chunks, cursor := chunks[..cursor + 1] + [c] + chunks[cursor + 1..], cursor + 1;
      }
      AdvanceToChunk(cursor);
      if nextChunk < MAX_CHUNK {
        nextChunk := if 2 * nextChunk < MAX_CHUNK then 2 * nextChunk else MAX_CHUNK;
      }
      return true;
    }

    /** Aligned bytes, or 0 when out of memory. host is what the host would answer to a growth. */
    method Allocate(bytes: nat, align: nat, host: nat) returns (p: nat)
      requires Valid() && align >= 1 && HostOk(View(), bytes + align, host)
      modifies this
      ensures Valid() && (View(), p) == Allocated(old(View()), bytes, align, host)
      ensures live == if p == 0 then old(live) else old(live) + [Block(p, bytes, align, cursor)]
      ensures p != 0 && bytes > 0 ==> Grounded(View())
      ensures p == 0 ==> View() == old(View())
      ensures cap == old(cap) && (old(reserved) <= cap ==> reserved <= cap)
    {
      hide LiveOk, HostOk, Grounded, MemOk, AlignUp, Allocated, HasRoom;
      AllocateKeeps(View(), live, bytes, align, host);
      RoomAllocates(View(), bytes, align, host);
      p := AlignUp(cur, align);
      if cur != 0 && p <= limit && bytes <= limit - p {
        cur, used := p + bytes, used + bytes;
      } else {
        p := AllocateSlow(bytes, align, host);
      }
      if p != 0 {
        live := live + [Block(p, bytes, align, cursor)];
      }
    }

    /** The chunk to allocate from when the current one has no room. */
    method NextChunkFor(bytes: nat, align: nat, host: nat) returns (ok: bool)
      requires MemOk(View()) && align >= 1 && HostOk(View(), bytes + align, host)
      modifies this`chunks, this`cursor, this`cur, this`limit, this`reserved, this`nextChunk
      ensures (ok, View()) == ChunkFor(old(View()), bytes, align, host)
    {
      CursorInRange(View());
      hide AlignUp, Fits, Grown, CanGrow, MemOk, HostOk;
      if cursor + 1 < |chunks| && Fits(chunks[cursor + 1], bytes, align) {
        AdvanceToChunk(cursor + 1);
        return true;
      }
      if bytes > SIZE_MAX - align {
        return false;
      }
      ok := Grow(bytes + align, host);
    }

    method AllocateSlow(bytes: nat, align: nat, host: nat) returns (p: nat)
      requires MemOk(View()) && align >= 1 && HostOk(View(), bytes + align, host) && !HasRoom(View(), bytes, align)
      modifies this`chunks, this`cursor, this`cur, this`limit, this`used, this`reserved, this`nextChunk
      ensures (View(), p) == Allocated(old(View()), bytes, align, host)
    {
      CursorInRange(View());
      hide AlignUp, ChunkFor, MemOk, HostOk, HasRoom;
      var ok := NextChunkFor(bytes, align, host);
      p := 0;
      if ok {
        p := AlignUp(cur, align);
        cur, used := p + bytes, used + bytes;
      }
    }

    /** Trim a block, passed by address and size. A call that takes something back must name a live block (the k-th)
        by its true size; one that does not is without effect whatever it names. The arena stays in order unless the
        block touches the chunk the bump pointer has not moved in. */
    method ShrinkLast(ptr: nat, oldBytes: nat, newBytes: nat, ghost k: nat)
      requires Valid()
      requires ptr != 0 && newBytes < oldBytes ==> k < |live| && live[k].addr == ptr && live[k].size == oldBytes
      modifies this
      ensures View() == Shrunk(old(View()), ptr, oldBytes, newBytes)
      ensures live == TrimmedLive(old(live), old(cur), ptr, oldBytes, newBytes, k)
      ensures Valid() <==> !(ptr != 0 && newBytes < oldBytes && Touches(old(View()), old(live)[k]))
      ensures old(Grounded(View())) ==> Valid() && (newBytes > 0 || newBytes == oldBytes ==> Grounded(View()))
    {
      hide MemOk, LiveOk, Grounded, TrimmedLive, Touches;
      ShrinkEffect(View(), live, ptr, oldBytes, newBytes, k);
      if Grounded(View()) {
        GroundedTrims(View(), live, ptr, oldBytes, newBytes, k);
      }
      live := TrimmedLive(live, cur, ptr, oldBytes, newBytes, k);
      if ptr != 0 && newBytes <= oldBytes && ptr + oldBytes == cur {
        cur, used := ptr + newBytes, used - (oldBytes - newBytes);
      }
    }

    /** Storage for count elements of elemSize bytes; 0 for no elements, for a byte count past the host's size, or for
        no memory. */
    method AllocateArray(count: nat, elemSize: nat, align: nat, host: nat) returns (p: nat)
      requires Valid() && align >= 1 && elemSize >= 1 && HostOk(View(), count * elemSize + align, host)
      modifies this
      ensures Valid() && (p != 0 ==> Grounded(View()))
      ensures count == 0 || count * elemSize > SIZE_MAX ==> p == 0
      ensures count > 0 && count * elemSize <= SIZE_MAX ==>
                (View(), p) == Allocated(old(View()), count * elemSize, align, host)
      ensures p == 0 ==> View() == old(View()) && live == old(live)
      ensures p != 0 ==> live == old(live) + [Block(p, count * elemSize, align, cursor)]
      ensures cap == old(cap) && (old(reserved) <= cap ==> reserved <= cap)
    {
      hide MemOk, LiveOk, Grounded, HostOk, Allocated;
      TooMany(count, elemSize);
      if count == 0 || count > SIZE_MAX / elemSize {
        return 0;
      }
      p := Allocate(count * elemSize, align, host);
    }

    method Reset()
      requires Valid()
      modifies this
      ensures Valid() && Grounded(View()) && View() == Rewound(old(View())) && live == []
      ensures chunks == old(chunks) && reserved == old(reserved) && cap == old(cap)
    {
      RewindKeeps(View());
      used, live := 0, [];
      cursor := 0;
      if chunks != [] {
        cur, limit := chunks[0].data, chunks[0].limit;
      } else {
        cur, limit := 0, 0;
      }
    }

    method SetCapacityLimit(max: nat)
      requires Valid()
      modifies this`cap
      ensures Valid() && View() == old(View()).(cap := max)
    {
      cap := max;
    }
  }
}
