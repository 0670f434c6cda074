/** Decoding a packed-varint span: six kernels and a re-classification loop against the one-at-a-time meaning. */
module Packed {
  import opened Varint
  import opened Swar
  import opened StopMask
  import opened Spans

  // ---- how far a span is read ----------------------------------------------------------------

  /** The span decodes as if vals had been read up to q. */
  ghost predicate Reached(s: seq<bv8>, q: nat, vals: seq<bv64>) {
    |vals| <= q <= |s| && DecodeFrom(s, q, vals) == DecodeSpan(s)
  }

  lemma ReachedNext(s: seq<bv8>, q: nat, vals: seq<bv64>, v: bv64, next: nat)
    requires Reached(s, q, vals) && q < |s| && VarintAt(s, q, |s|) == Done(v, next)
    ensures Reached(s, next, vals + [v]) && |vals| < |s|
  {
  }

  // ---- the sink ------------------------------------------------------------------------------

  /** Stores conv(raw) into the slots of a caller's array from at on; only slots already put are changed. */
  class ArraySink<E> {
    const out: array<E>
    const at: nat
    const conv: bv64 -> E
    const room: nat
    ghost const before: seq<E>
    ghost var vals: seq<bv64>

    ghost predicate Valid()
      reads this, out
    {
      && at + room <= out.Length && |vals| <= room
      && (forall i :: 0 <= i < |vals| ==> out[at + i] == conv(vals[i]))
      && |before| == out.Length
      && (forall i :: 0 <= i < out.Length && !(at <= i < at + |vals|) ==> out[i] == before[i])
    }

    constructor (out: array<E>, at: nat, room: nat, conv: bv64 -> E)
      requires at + room <= out.Length
      ensures Valid() && vals == [] && before == out[..]
      ensures this.out == out && this.at == at && this.room == room && this.conv == conv
    {
      this.out, this.at, this.room, this.conv := out, at, room, conv;
      before, vals := out[..], [];
    }

    method Put(i: nat, raw: bv64)
      requires Valid() && i == |vals| < room
      modifies this, out
      ensures Valid() && vals == old(vals) + [raw]
    {
      out[at + i] := conv(raw);
      vals := vals + [raw];
    }
  }

  // ---- one varint by the word ----------------------------------------------------------------

  lemma First0(b0: bv8, b1: bv8, b2: bv8, b3: bv8, b4: bv8, b5: bv8, b6: bv8, b7: bv8)
    requires !Continues(b0)
    ensures Meets(Stops(Gather(b0, b1, b2, b3, b4, b5, b6, b7)), UpBytes(0x80, 0)) && Under(Stops(Gather(b0, b1, b2, b3, b4, b5, b6, b7)), UpBytes(0x80, 0)) == 0
    ensures FirstValue(Gather(b0, b1, b2, b3, b4, b5, b6, b7)) == WordValue(Gather(b0, b1, b2, b3, b4, b5, b6, b7), 1)
  {
  }

  lemma First1(b0: bv8, b1: bv8, b2: bv8, b3: bv8, b4: bv8, b5: bv8, b6: bv8, b7: bv8)
    requires Continues(b0) && !Continues(b1)
    ensures Meets(Stops(Gather(b0, b1, b2, b3, b4, b5, b6, b7)), UpBytes(0x80, 1)) && Under(Stops(Gather(b0, b1, b2, b3, b4, b5, b6, b7)), UpBytes(0x80, 1)) == 0
    ensures FirstValue(Gather(b0, b1, b2, b3, b4, b5, b6, b7)) == WordValue(Gather(b0, b1, b2, b3, b4, b5, b6, b7), 2)
  {
  }

  lemma First2(b0: bv8, b1: bv8, b2: bv8, b3: bv8, b4: bv8, b5: bv8, b6: bv8, b7: bv8)
    requires Continues(b0) && Continues(b1) && !Continues(b2)
    ensures Meets(Stops(Gather(b0, b1, b2, b3, b4, b5, b6, b7)), UpBytes(0x80, 2)) && Under(Stops(Gather(b0, b1, b2, b3, b4, b5, b6, b7)), UpBytes(0x80, 2)) == 0
    ensures FirstValue(Gather(b0, b1, b2, b3, b4, b5, b6, b7)) == WordValue(Gather(b0, b1, b2, b3, b4, b5, b6, b7), 3)
  {
  }

  lemma First3(b0: bv8, b1: bv8, b2: bv8, b3: bv8, b4: bv8, b5: bv8, b6: bv8, b7: bv8)
    requires Continues(b0) && Continues(b1) && Continues(b2) && !Continues(b3)
    ensures Meets(Stops(Gather(b0, b1, b2, b3, b4, b5, b6, b7)), UpBytes(0x80, 3)) && Under(Stops(Gather(b0, b1, b2, b3, b4, b5, b6, b7)), UpBytes(0x80, 3)) == 0
    ensures FirstValue(Gather(b0, b1, b2, b3, b4, b5, b6, b7)) == WordValue(Gather(b0, b1, b2, b3, b4, b5, b6, b7), 4)
  {
  }

  lemma First4(b0: bv8, b1: bv8, b2: bv8, b3: bv8, b4: bv8, b5: bv8, b6: bv8, b7: bv8)
    requires Continues(b0) && Continues(b1) && Continues(b2) && Continues(b3) && !Continues(b4)
    ensures Meets(Stops(Gather(b0, b1, b2, b3, b4, b5, b6, b7)), UpBytes(0x80, 4)) && Under(Stops(Gather(b0, b1, b2, b3, b4, b5, b6, b7)), UpBytes(0x80, 4)) == 0
    ensures FirstValue(Gather(b0, b1, b2, b3, b4, b5, b6, b7)) == WordValue(Gather(b0, b1, b2, b3, b4, b5, b6, b7), 5)
  {
  }

  lemma First5(b0: bv8, b1: bv8, b2: bv8, b3: bv8, b4: bv8, b5: bv8, b6: bv8, b7: bv8)
    requires Continues(b0) && Continues(b1) && Continues(b2) && Continues(b3) && Continues(b4) && !Continues(b5)
    ensures Meets(Stops(Gather(b0, b1, b2, b3, b4, b5, b6, b7)), UpBytes(0x80, 5)) && Under(Stops(Gather(b0, b1, b2, b3, b4, b5, b6, b7)), UpBytes(0x80, 5)) == 0
    ensures FirstValue(Gather(b0, b1, b2, b3, b4, b5, b6, b7)) == WordValue(Gather(b0, b1, b2, b3, b4, b5, b6, b7), 6)
  {
  }

  lemma First6(b0: bv8, b1: bv8, b2: bv8, b3: bv8, b4: bv8, b5: bv8, b6: bv8, b7: bv8)
    requires Continues(b0) && Continues(b1) && Continues(b2) && Continues(b3) && Continues(b4) && Continues(b5) && !Continues(b6)
    ensures Meets(Stops(Gather(b0, b1, b2, b3, b4, b5, b6, b7)), UpBytes(0x80, 6)) && Under(Stops(Gather(b0, b1, b2, b3, b4, b5, b6, b7)), UpBytes(0x80, 6)) == 0
    ensures FirstValue(Gather(b0, b1, b2, b3, b4, b5, b6, b7)) == WordValue(Gather(b0, b1, b2, b3, b4, b5, b6, b7), 7)
  {
  }

  lemma First7(b0: bv8, b1: bv8, b2: bv8, b3: bv8, b4: bv8, b5: bv8, b6: bv8, b7: bv8)
    requires Continues(b0) && Continues(b1) && Continues(b2) && Continues(b3) && Continues(b4) && Continues(b5) && Continues(b6) && !Continues(b7)
    ensures Meets(Stops(Gather(b0, b1, b2, b3, b4, b5, b6, b7)), UpBytes(0x80, 7)) && Under(Stops(Gather(b0, b1, b2, b3, b4, b5, b6, b7)), UpBytes(0x80, 7)) == 0
    ensures FirstValue(Gather(b0, b1, b2, b3, b4, b5, b6, b7)) == WordValue(Gather(b0, b1, b2, b3, b4, b5, b6, b7), 8)
  {
  }

  lemma NoStops(b0: bv8, b1: bv8, b2: bv8, b3: bv8, b4: bv8, b5: bv8, b6: bv8, b7: bv8)
    ensures Stops(Gather(b0, b1, b2, b3, b4, b5, b6, b7)) == 0 <==> AllContinue(Gather(b0, b1, b2, b3, b4, b5, b6, b7))
  {
  }

  lemma FirstMark(s: seq<bv8>, q: nat, k: nat)
    requires q + 8 <= |s| && k < 8 && OneVarintBytes(s, q, k + 1)
    ensures Lowest(Stops(Load64(s, q)), 8 * k + 7)
    ensures FirstValue(Load64(s, q)) == WordValue(Load64(s, q), k + 1)
  {
    hide Gather, Stops, FirstValue, WordValue, Meets, Under, UpBytes, Continues, Bit;
    match k {
      case 0 => First0(s[q], s[q + 1], s[q + 2], s[q + 3], s[q + 4], s[q + 5], s[q + 6], s[q + 7]);
      case 1 => First1(s[q], s[q + 1], s[q + 2], s[q + 3], s[q + 4], s[q + 5], s[q + 6], s[q + 7]);
      case 2 => First2(s[q], s[q + 1], s[q + 2], s[q + 3], s[q + 4], s[q + 5], s[q + 6], s[q + 7]);
      case 3 => First3(s[q], s[q + 1], s[q + 2], s[q + 3], s[q + 4], s[q + 5], s[q + 6], s[q + 7]);
      case 4 => First4(s[q], s[q + 1], s[q + 2], s[q + 3], s[q + 4], s[q + 5], s[q + 6], s[q + 7]);
      case 5 => First5(s[q], s[q + 1], s[q + 2], s[q + 3], s[q + 4], s[q + 5], s[q + 6], s[q + 7]);
      case 6 => First6(s[q], s[q + 1], s[q + 2], s[q + 3], s[q + 4], s[q + 5], s[q + 6], s[q + 7]);
      case 7 => First7(s[q], s[q + 1], s[q + 2], s[q + 3], s[q + 4], s[q + 5], s[q + 6], s[q + 7]);
    }
    BitsOfByte(k);
  }

  lemma SomeStop(s: seq<bv8>, q: nat, c: nat)
    requires q + 8 <= |s| && Lowest(Stops(Load64(s, q)), c)
    ensures Run(s, q, |s|) < 8
  {
    hide Gather, Stops, Meets, Under, Continues, AllContinue, NoneContinue, Bit;
    if Run(s, q, |s|) >= 8 {
      NoStops(s[q], s[q + 1], s[q + 2], s[q + 3], s[q + 4], s[q + 5], s[q + 6], s[q + 7]);
      AllMarks(s[q], s[q + 1], s[q + 2], s[q + 3], s[q + 4], s[q + 5], s[q + 6], s[q + 7]);
      NothingMeets(Bit(c));
    }
  }

  /** The lowest terminator mark of a word tells the width and the value of the varint it starts with. */
  lemma FirstOfWord(s: seq<bv8>, q: nat, c: nat)
    requires q + 8 <= |s| && Lowest(Stops(Load64(s, q)), c)
    ensures VarintAt(s, q, |s|) == Done(FirstValue(Load64(s, q)), q + c / 8 + 1)
  {
    hide Load64, Stops, FirstValue, WordValue, Lowest, Continues, Base128;
    SomeStop(s, q, c);
    var k := Run(s, q, |s|);
    FirstMark(s, q, k);
    LowestIsUnique(Stops(Load64(s, q)), c, 8 * k + 7);
    OneVarintReads(s, q, k + 1);
    WordIsGroups(s, q, k + 1);
  }

  method ReadVarintPacked(s: seq<bv8>, p: nat) returns (r: Read<bv64>)
    requires p + 8 <= |s|
    ensures r == VarintAt(s, p, |s|)
  {
    hide Continues, Load64, Stops, FirstValue, Meets, Under, Bit;
    if !Continues(s[p]) {
      ByteWord(s, p);
      return Done(s[p] as bv64, p + 1);
    }
    var w := Load64(s, p);
    var stop := Stops(w);
    if stop == 0 {
      r := ReadVarint(s, p, |s|);
      return;
    }
    var c := Ctz64(stop);
    FirstOfWord(s, p, c);
    return Done(FirstValue(w), p + c / 8 + 1);
  }

  // ---- classification ------------------------------------------------------------------------

  datatype PackedKernel = ByteLoop | Swar | Struct | Bulk1 | Bulk2 | Fixed

  const KERNEL_MIN_SPAN: nat := 256

  /** Widths of the varints that end in the 64-byte window at q, the first starting at byte start. */
  function Gaps(s: seq<bv8>, q: nat, start: nat): (g: seq<nat>)
    requires q + 64 <= |s| && start <= 64
    ensures forall i :: 0 <= i < |g| ==> 1 <= g[i]
    decreases 64 - start
  {
    var b := NextStop(s, q, start);
    if b == 64 then [] else [b - start + 1] + Gaps(s, q, b + 1)
  }

  predicate Homogeneous(g: seq<nat>) {
    forall i :: 0 <= i < |g| ==> g[i] == g[0]
  }

  predicate AtMostFive(g: seq<nat>) {
    forall i :: 0 <= i < |g| ==> g[i] <= 5
  }

  /** The kernel the width regime of a window calls for, and the stride of the fixed one. */
  function Regime(g: seq<nat>): (PackedKernel, nat) {
    if g == [] then (ByteLoop, 0)
    else if !Homogeneous(g) then (if AtMostFive(g) then Struct else Swar, 0)
    else if g[0] == 1 then (Bulk1, 0)
    else if g[0] == 2 then (Bulk2, 0)
    else if g[0] <= 10 then (Fixed, g[0])
    else (ByteLoop, 0)
  }

  /** First width, greatest width and uniformity of the widths seen. */
  ghost predicate Summary(seen: seq<nat>, g0: int, maxw: int, homo: bool) {
    && (if seen == [] then g0 == -1 && maxw == 0 else g0 == seen[0] && maxw in seen)
    && (forall i :: 0 <= i < |seen| ==> 1 <= seen[i] <= maxw)
    && (homo <==> Homogeneous(seen))
  }

  /** m is the part of the window's terminator mask from byte a on. */
  ghost predicate MaskFrom(s: seq<bv8>, q: nat, a: nat, m: bv64)
    requires q + 64 <= |s| && a <= 64
  {
    m == StopRange(s, q, a, 64 - a)
  }

  /** A count of trailing zeros on the remaining mask finds the next terminator; clearing the bit moves past it. */
  lemma StopAhead(s: seq<bv8>, q: nat, a: nat, m: bv64, b: nat)
    requires q + 64 <= |s| && a <= 64 && MaskFrom(s, q, a, m) && m != 0 && Lowest(m, b)
    ensures a <= b < 64 && b == NextStop(s, q, a)
    ensures MaskFrom(s, q, b + 1, ClearLowest(m))
  {
    hide Lowest, ClearLowest, StopRange, Bit, Under;
    ScanStops(s, q, a);
    LowestIsUnique(m, b, NextStop(s, q, a));
  }

  /** The widths met before byte a are seen; those still to come are the rest of the window's. */
  ghost predicate WidthsSeen(s: seq<bv8>, q: nat, a: nat, seen: seq<nat>)
    requires q + 64 <= |s| && a <= 64
  {
    Gaps(s, q, 0) == seen + Gaps(s, q, a)
  }

  lemma AppendAssoc<T>(x: seq<T>, y: seq<T>, z: seq<T>)
    ensures x + (y + z) == (x + y) + z
  {
  }

  lemma WidthsNext(s: seq<bv8>, q: nat, a: nat, seen: seq<nat>)
    requires q + 64 <= |s| && a <= 64 && WidthsSeen(s, q, a, seen)
    ensures var b := NextStop(s, q, a);
            if b == 64 then Gaps(s, q, 0) == seen else WidthsSeen(s, q, b + 1, seen + [b - a + 1])
  {
    hide NextStop;
    var b := NextStop(s, q, a);
    if b == 64 {
      assert seen + [] == seen;
    } else {
      var w: nat, rest := b - a + 1, Gaps(s, q, b + 1);
      assert Gaps(s, q, a) == [w] + rest;
      AppendAssoc(seen, [w], rest);
    }
  }

  lemma ScanStart(s: seq<bv8>, q: nat, m: bv64)
    requires q + 64 <= |s| && m == StopRange(s, q, 0, 64)
    ensures MaskFrom(s, q, 0, m) && WidthsSeen(s, q, 0, [])
  {
    hide StopRange;
    assert [] + Gaps(s, q, 0) == Gaps(s, q, 0);
  }

  lemma NoStopLeft(s: seq<bv8>, q: nat, a: nat)
    requires q + 64 <= |s| && a <= 64 && MaskFrom(s, q, a, 0)
    ensures NextStop(s, q, a) == 64
  {
    hide Lowest, ClearLowest, StopRange, Bit, Under;
    ScanStops(s, q, a);
  }

  lemma SummaryNext(seen: seq<nat>, g0: int, maxw: int, homo: bool, w: nat)
    requires Summary(seen, g0, maxw, homo) && w >= 1
    ensures Summary(seen + [w], if g0 < 0 then w else g0, if w > maxw then w else maxw,
                    if g0 < 0 || w == g0 then homo else false)
  {
    Extended(seen, w);
    assert w in seen + [w];
    if seen != [] {
      assert maxw in seen + [w];
    }
  }

  method PackedStrategy(s: seq<bv8>, q: nat) returns (kern: PackedKernel, width: nat)
    requires q <= |s|
    ensures (kern, width) == if |s| - q < KERNEL_MIN_SPAN then (ByteLoop, 0) else Regime(Gaps(s, q, 0))
  {
    hide ClearLowest, StopRange, MaskFrom, WidthsSeen, Summary, Gaps, Lowest, NextStop;
    width := 0;
    if |s| - q < KERNEL_MIN_SPAN {
      return ByteLoop, width;
    }
    var stop := StopMask64(s, q);
    ScanStart(s, q, stop);
    if stop == 0 {
      NoStopLeft(s, q, 0);
      WidthsNext(s, q, 0, []);
      return ByteLoop, width;
    }
    var m := stop;
    var last: int := -1;
    var g0: int := -1;
    var maxw: int := 0;
    var homo := true;
    ghost var seen: seq<nat> := [];
    assert Summary(seen, g0, maxw, homo) by { SummaryStart(); }
    while m != 0
      invariant -1 <= last < 64 && MaskFrom(s, q, last + 1, m)
      invariant WidthsSeen(s, q, last + 1, seen)
      invariant Summary(seen, g0, maxw, homo)
      invariant seen == [] ==> m != 0
      decreases 64 - last
    {
      var b := Ctz64(m);
      StopAhead(s, q, last + 1, m, b);
      WidthsNext(s, q, last + 1, seen);
      m := ClearLowest(m);
      var w := b - last;
      last := b;
      SummaryNext(seen, g0, maxw, homo, w);
      if w > maxw {
        maxw := w;
      }
      if g0 < 0 {
        g0 := w;
      } else if w != g0 {
        homo := false;
      }
      seen := seen + [w];
    }
    NoStopLeft(s, q, last + 1);
    WidthsNext(s, q, last + 1, seen);
    SummaryRegime(seen, g0, maxw, homo);
    if !homo {
      return if maxw <= 5 then Struct else Swar, width;
    }
    if g0 == 1 {
      return Bulk1, width;
    }
    if g0 == 2 {
      return Bulk2, width;
    }
    if 3 <= g0 <= 10 {
      width := g0;
      return Fixed, width;
    }
    return ByteLoop, width;
  }

  lemma SummaryStart()
    ensures Summary([], -1, 0, true)
  {
  }

  lemma SummaryRegime(seen: seq<nat>, g0: int, maxw: int, homo: bool)
    requires Summary(seen, g0, maxw, homo) && seen != []
    ensures g0 == seen[0] >= 1
    ensures homo <==> Homogeneous(seen)
    ensures maxw <= 5 <==> AtMostFive(seen)
  {
  }

  lemma Extended(g: seq<nat>, w: nat)
    ensures Homogeneous(g + [w]) <==> Homogeneous(g) && (g == [] || w == g[0])
  {
    if g != [] {
      var h := g + [w];
      assert h[0] == g[0] && h[|g|] == w;
      if Homogeneous(h) {
        forall i | 0 <= i < |g| ensures g[i] == g[0] {
          assert h[i] == g[i];
        }
      }
    }
  }

  // ---- the kernels ---------------------------------------------------------------------------

  /** A kernel may run: the sink holds exactly the n values read up to q. */
  ghost predicate Running<E>(s: seq<bv8>, q: nat, n: nat, sink: ArraySink<E>)
    reads sink, sink.out
  {
    sink.Valid() && |s| <= sink.room && n == |sink.vals| && q <= |s| && Reached(s, q, sink.vals)
  }

  /** Stores the varint read at q and steps over it. */
  method Take<E>(s: seq<bv8>, q: nat, n: nat, raw: bv64, ghost next: nat, sink: ArraySink<E>)
    requires Running(s, q, n, sink) && q < |s| && VarintAt(s, q, |s|) == Done(raw, next)
    modifies sink, sink.out
    ensures Running(s, next, n + 1, sink) && sink.vals == old(sink.vals) + [raw]
  {
    ReachedNext(s, q, sink.vals, raw, next);
    sink.Put(n, raw);
  }

  method FillBulk1<E>(s: seq<bv8>, q0: nat, n0: nat, sink: ArraySink<E>) returns (q: nat, n: nat)
    requires Running(s, q0, n0, sink)
    modifies sink, sink.out
    ensures q0 <= q && Running(s, q, n, sink)
    ensures |s| - q < 64 || exists i :: q <= i < q + 64 && Continues(s[i])
  {
    hide Load64, NoneContinue, Continues, Reached, ArraySink.Valid;
    q, n := q0, n0;
    while |s| - q >= 64
      invariant q0 <= q <= |s| && Running(s, q, n, sink)
    {
      var any := false;
      for j := 0 to 8
        invariant Running(s, q, n, sink)
        invariant any <==> exists i :: q <= i < q + 8 * j && Continues(s[i])
      {
        WordAllOnes(s, q + 8 * j);
        if !NoneContinue(Load64(s, q + 8 * j)) {
          any := true;
        }
      }
      if any {
        break;
      }
      for i := 0 to 64
        invariant Running(s, q + i, n + i, sink)
      {
        ByteWord(s, q + i);
        Take(s, q + i, n + i, s[q + i] as bv64, q + i + 1, sink);
      }
      q, n := q + 64, n + 64;
    }
  }

  lemma WordAllOnes(s: seq<bv8>, q: nat)
    requires q + 8 <= |s|
    ensures NoneContinue(Load64(s, q)) <==> forall i :: q <= i < q + 8 ==> !Continues(s[i])
  {
    hide Gather, AllContinue, NoneContinue, Continues;
    AllMarks(s[q], s[q + 1], s[q + 2], s[q + 3], s[q + 4], s[q + 5], s[q + 6], s[q + 7]);
  }

  method FillBulk2<E>(s: seq<bv8>, q0: nat, n0: nat, sink: ArraySink<E>) returns (q: nat, n: nat)
    requires Running(s, q0, n0, sink)
    modifies sink, sink.out
    ensures q0 <= q && Running(s, q, n, sink)
    ensures |s| - q < 8 || !FourPairs(s, q)
  {
    hide Load64, IsFourPairs, FourPairs, PairValue, Reached, ArraySink.Valid;
    q, n := q0, n0;
    while |s| - q >= 8
      invariant q0 <= q <= |s| && Running(s, q, n, sink)
    {
      var w := Load64(s, q);
      if !IsFourPairs(w) {
        FourPairsWord(s, q);
        break;
      }
      for k := 0 to 4
        invariant Running(s, q + 2 * k, n + k, sink)
      {
        PairWord(s, q, k);
        Take(s, q + 2 * k, n + k, PairValue(w, k), q + 2 * k + 2, sink);
      }
      q, n := q + 8, n + 4;
    }
  }

  ghost predicate FourPairs(s: seq<bv8>, q: nat)
    requires q + 8 <= |s|
  {
    OneVarintBytes(s, q, 2) && OneVarintBytes(s, q + 2, 2) && OneVarintBytes(s, q + 4, 2) && OneVarintBytes(s, q + 6, 2)
  }

  lemma FourPairsWord(s: seq<bv8>, q: nat)
    requires q + 8 <= |s|
    ensures IsFourPairs(Load64(s, q)) <==> FourPairs(s, q)
  {
    hide Gather, IsFourPairs, Continues;
    PairMarks(s[q], s[q + 1], s[q + 2], s[q + 3], s[q + 4], s[q + 5], s[q + 6], s[q + 7]);
  }

  /** Fixed stride of W = 3 .. 8 bytes; W <= 4 takes two varints per load when it can. */
  method FixedFill<E>(W: nat, s: seq<bv8>, q0: nat, n0: nat, sink: ArraySink<E>) returns (q: nat, n: nat)
    requires 3 <= W <= 8 && Running(s, q0, n0, sink)
    modifies sink, sink.out
    ensures q0 <= q && Running(s, q, n, sink)
    ensures |s| - q < 8 || !OneVarintBytes(s, q, W)
  {
    hide Load64, IsOneVarint, IsTwoVarints, WordValue, DownBytes, Reached, ArraySink.Valid, OneVarintBytes;
    q, n := q0, n0;
    while |s| - q >= 8
      invariant q0 <= q <= |s| && Running(s, q, n, sink)
    {
      var w := Load64(s, q);
      OneVarintWord(s, q, W);
      if W <= 4 && IsTwoVarints(w, W) {
        TwoVarintWord(s, q, W);
        Take(s, q, n, WordValue(w, W), q + W, sink);
        Take(s, q + W, n + 1, WordValue(DownBytes(w, W), W), q + 2 * W, sink);
        q, n := q + 2 * W, n + 2;
      } else if IsOneVarint(w, W) {
        Take(s, q, n, WordValue(w, W), q + W, sink);
        q, n := q + W, n + 1;
      } else {
        break;
      }
    }
  }

  /** Fixed stride of 9 or 10 bytes: the low eight bytes in one word, then the high byte or bytes. */
  method FixedFillWide<E>(W: nat, s: seq<bv8>, q0: nat, n0: nat, sink: ArraySink<E>) returns (q: nat, n: nat)
    requires (W == 9 || W == 10) && Running(s, q0, n0, sink)
    modifies sink, sink.out
    ensures q0 <= q && Running(s, q, n, sink)
    ensures |s| - q < W || !OneVarintBytes(s, q, W) || (W == 10 && !FitsBit63(s[q + 9]))
  {
    hide Load64, AllContinue, WordValue, NinthGroup, TenthGroup64, FitsBit63, Continues, Reached, ArraySink.Valid;
    q, n := q0, n0;
    while |s| - q >= W
      invariant q0 <= q <= |s| && Running(s, q, n, sink)
    {
      var w0 := Load64(s, q);
      if !AllContinue(w0) {
        NotAllContinue(s, q);
        break;
      }
      var value := WordValue(w0, 8);
      var b8 := s[q + 8];
      if W == 9 {
        if Continues(b8) {
          break;
        }
        value := NinthGroup(value, b8);
        NineByteWord(s, q);
      } else {
        var b9 := s[q + 9];
        if !Continues(b8) || Continues(b9) {
          break;
        }
        if !FitsBit63(b9) {
          break;
        }
        value := TenthGroup64(NinthGroup(value, b8), b9);
        TenByteWord(s, q);
      }
      Take(s, q, n, value, q + W, sink);
      q, n := q + W, n + 1;
    }
  }

  lemma NotAllContinue(s: seq<bv8>, q: nat)
    requires q + 8 <= |s| && !AllContinue(Load64(s, q))
    ensures exists i :: q <= i < q + 8 && !Continues(s[i])
  {
    hide Gather, AllContinue, NoneContinue, Continues;
    AllMarks(s[q], s[q + 1], s[q + 2], s[q + 3], s[q + 4], s[q + 5], s[q + 6], s[q + 7]);
  }

  /** What a kernel that validates reports: still running at (q, n), or a malformed varint at q. */
  datatype Progress = Going | Bad(error: WireError)

  method FillSwar<E>(s: seq<bv8>, q0: nat, n0: nat, sink: ArraySink<E>) returns (q: nat, n: nat, p: Progress)
    requires Running(s, q0, n0, sink)
    modifies sink, sink.out
    ensures q0 <= q && Running(s, q, n, sink)
    ensures p.Bad? ==> DecodeSpan(s) == Malformed(p.error, q)
    ensures p.Going? ==> |s| - q < 8
  {
    hide VarintAt, ArraySink.Valid;
    q, n, p := q0, n0, Going;
    while |s| - q >= 8
      invariant q0 <= q <= |s| && Running(s, q, n, sink)
    {
      var r := ReadVarintPacked(s, q);
      if r.Fail? {
        return q, n, Bad(r.error);
      }
      VarintAdvances(s, q);
      Take(s, q, n, r.value, r.next, sink);
      q, n := r.next, n + 1;
    }
  }

  /** The varint from byte start to the next terminator of the window, as the mask sees it. */
  lemma StopVarint(s: seq<bv8>, q: nat, start: nat)
    requires q + 72 <= |s| && start < 64 && NextStop(s, q, start) < 64
    ensures var len := NextStop(s, q, start) - start + 1;
            && (len <= 8 ==> VarintAt(s, q + start, |s|) == Done(WordValue(Load64(s, q + start), len), q + start + len))
            && (VarintAt(s, q + start, |s|).Done? ==> VarintAt(s, q + start, |s|).next == q + start + len)
  {
    hide Load64, WordValue, Continues, Base128, FitsBit63;
    var b := NextStop(s, q, start);
    var len := b - start + 1;
    RunIs(s, q + start, |s|, len - 1);
    if len <= 8 {
      OneVarintReads(s, q + start, len);
      WordIsGroups(s, q + start, len);
    }
  }

  method FillStruct<E>(s: seq<bv8>, q0: nat, n0: nat, sink: ArraySink<E>) returns (q: nat, n: nat, p: Progress)
    requires Running(s, q0, n0, sink)
    modifies sink, sink.out
    ensures q0 <= q && Running(s, q, n, sink)
    ensures p.Bad? ==> DecodeSpan(s) == Malformed(p.error, q)
    ensures p.Going? ==> |s| - q < 72 || forall i :: q <= i < q + 64 ==> Continues(s[i])
  {
    hide VarintAt, ArraySink.Valid, Load64, WordValue, StopRange, MaskFrom, WidthsSeen, NextStop, Lowest, ClearLowest;
    q, n, p := q0, n0, Going;
    while |s| - q >= 72
      invariant q0 <= q <= |s| && Running(s, q, n, sink)
    {
      var t := StopMask64(s, q);
      ScanStart(s, q, t);
      if t == 0 {
        NoStopLeft(s, q, 0);
        AllWindow(s, q);
        break;
      }
      var start := 0;
      while true
        invariant start < 64 && t != 0 && MaskFrom(s, q, start, t)
        invariant Running(s, q + start, n, sink)
        decreases 64 - start
      {
        var b := Ctz64(t);
        StopAhead(s, q, start, t, b);
        StopVarint(s, q, start);
        t := ClearLowest(t);
        var len := b - start + 1;
        if len <= 8 {
          Take(s, q + start, n, WordValue(Load64(s, q + start), len), q + b + 1, sink);
        } else {
          var r := ReadVarintPacked(s, q + start);
          if r.Fail? {
            return q + start, n, Bad(r.error);
          }
          Take(s, q + start, n, r.value, q + b + 1, sink);
        }
        n := n + 1;
        start := b + 1;
        if t == 0 {
          break;
        }
        MaskInside(s, q, start, t);
      }
      q := q + start;
    }
  }

  lemma AllWindow(s: seq<bv8>, q: nat)
    requires q + 64 <= |s| && NextStop(s, q, 0) == 64
    ensures forall i :: q <= i < q + 64 ==> Continues(s[i])
  {
  }

  lemma MaskInside(s: seq<bv8>, q: nat, a: nat, m: bv64)
    requires q + 64 <= |s| && a <= 64 && MaskFrom(s, q, a, m) && m != 0
    ensures a < 64
  {
  }

  // ---- the decoder ---------------------------------------------------------------------------

  /** The element count, or the error code with the failure offset from the base of the buffer. */
  datatype Outcome = Count(n: nat) | Error(error: WireError, failOffset: nat)

  method DecodePackedVarints<E>(s: seq<bv8>, base: nat, sink: ArraySink<E>) returns (r: Outcome)
    requires sink.Valid() && sink.vals == [] && |s| <= sink.room
    modifies sink, sink.out
    ensures sink.Valid()
    ensures match DecodeSpan(s)
            case Values(vals) => r == Count(|vals|) && sink.vals == vals
            case Malformed(e, off) => r == Error(e, base + off)
  {
    hide VarintAt, ArraySink.Valid;
    var q: nat, n: nat := 0, 0;
    if |s| >= KERNEL_MIN_SPAN {
      while true
        invariant Running(s, q, n, sink)
        decreases |s| - q
      {
        var qStart := q;
        var kern, width := PackedStrategy(s, q);
        FixedWidth(s, q);
        var p := Going;
        match kern {
          case Bulk1 => q, n := FillBulk1(s, q, n, sink);
          case Bulk2 => q, n := FillBulk2(s, q, n, sink);
          case Fixed =>
            if width <= 8 {
              q, n := FixedFill(width, s, q, n, sink);
            } else {
              q, n := FixedFillWide(width, s, q, n, sink);
            }
          case Struct => q, n, p := FillStruct(s, q, n, sink);
          case Swar => q, n, p := FillSwar(s, q, n, sink);
          case ByteLoop =>
        }
        if p.Bad? {
          return Error(p.error, base + q);
        }
        if |s| - q < 512 || q - qStart < 4096 {
          break;
        }
      }
    }
    while q < |s|
      invariant Running(s, q, n, sink)
      decreases |s| - q
    {
      var v := ReadVarint(s, q, |s|);
      if v.Fail? {
        return Error(v.error, base + q);
      }
      VarintAdvances(s, q);
      Take(s, q, n, v.value, v.next, sink);
      q, n := v.next, n + 1;
    }
    return Count(n);
  }

  /** The strides the fixed kernels are asked for. */
  lemma FixedWidth(s: seq<bv8>, q: nat)
    requires q <= |s|
    ensures |s| - q >= KERNEL_MIN_SPAN && Regime(Gaps(s, q, 0)).0 == Fixed ==> 3 <= Regime(Gaps(s, q, 0)).1 <= 10
  {
  }
}
