/** The generated {acc, n, cap} accumulator of a repeated scalar field, over the arena and the packed decoder. */
module Accumulator {
  import opened Basics
  import opened Varint
  import opened Spans
  import opened Packed
  import A = Arena

  /** What one record of the field does to the decode. */
  datatype Step = Ok | OutOfMemory | Wire(error: WireError, offset: nat)

  /** What the host answers when the arena, in this state, asks for this many usable bytes. */
  type Host = (A.Mem, nat) -> nat

  /** The answers are blocks away from the arena's chunks, or none. */
  ghost predicate Honest(host: Host) { forall m, min :: A.HostOk(m, min, host(m, min)) }

  lemma HonestAnswer(host: Host, m: A.Mem, min: nat)
    requires Honest(host)
    ensures A.HostOk(m, min, host(m, min))
  {
  }

  lemma Fewer(a: nat, b: nat, size: nat)
    requires a <= b
    ensures a * size <= b * size
    ensures size > 0 && a < b ==> a * size < b * size
    ensures size > 0 && a > 0 ==> a * size > 0
  {
    assert b * size == a * size + (b - a) * size;
  }

  /** An accumulator's fields, and the elements it stands for. */
  datatype Holding<E> = Holding(acc: nat, k: nat, n: nat, cap: nat, slots: seq<E>, elems: seq<E>)

  /** The first n slots are the elements so far; cap slots fit the arena block, which is no larger than that while there
      is an unused tail to trim. */
  ghost predicate InPlace<E>(h: Holding<E>, size: nat, align: nat, live: seq<A.Block>) {
    && size >= 1 && align >= 1
    && h.n <= h.cap <= |h.slots| && (h.n == 0 ==> h.cap == 0)
    && (if h.acc == 0 then h.cap == 0 else
          h.k < |live| && live[h.k].addr == h.acc && h.cap * size <= live[h.k].size
          && (h.n < h.cap ==> live[h.k].size == h.cap * size))
    && h.slots[..h.n] == h.elems
  }

  // ---- what a record asks of the arena -------------------------------------------------------

  /** An accumulator's block with the elements used and the elements it holds. */
  datatype Cell = Cell(acc: nat, n: nat, cap: nat)

  /** The arena, and the accumulator's block in it. */
  datatype Place = Place(mem: A.Mem, cell: Cell)

  /** The size and alignment of one element. */
  datatype Dim = Dim(size: nat, align: nat)

  ghost predicate CursorOk(m: A.Mem) { m.chunks != [] ==> m.cursor < |m.chunks| }

  /** A request of the arena, answered by the host if it comes to that; 0 when it fails. */
  ghost function Request(m: A.Mem, bytes: nat, align: nat, host: Host): (A.Mem, nat) {
    if align == 0 || !CursorOk(m) then (m, 0) else A.Allocated(m, bytes, align, host(m, bytes + align))
  }

  /** The block moved to one of count elements, when it holds fewer; none when the arena cannot serve it. */
  ghost function Roomy(p: Place, count: nat, dim: Dim, host: Host): Option<Place> {
    if count <= p.cell.cap then Some(p)
    else if count * dim.size > SIZE_MAX then None
    else
      var (m, addr) := Request(p.mem, count * dim.size, dim.align, host);
      if addr == 0 then None else Some(Place(m, Cell(addr, p.cell.n, count)))
  }

  /** How the elements arrive: one by itself, or in a packed span. */
  datatype Way = Expanded | FixedSpan | VarintSpan

  /** How many elements the block must hold for `most` more: an expanded element that finds it full has it hold four or
      twice as many, a packed span the most it can add. */
  function Wanted(c: Cell, most: nat, way: Way): nat {
    if way != Expanded then (if most == 0 then 0 else c.n + most)
    else if c.n < c.cap then 0 else if c.cap == 0 then 4 else 2 * c.cap
  }

  /** n elements counted in; after a varint span the unused tail is trimmed. */
  ghost function Counted(p: Place, n: nat, way: Way, dim: Dim): Place {
    var c := p.cell.(n := p.cell.n + n);
    if way == VarintSpan then Place(A.Shrunk(p.mem, c.acc, c.cap * dim.size, c.n * dim.size), c.(cap := c.n))
    else Place(p.mem, c)
  }

  /** Where n elements of at most `most` leave the arena and the block; none when the arena cannot serve them. */
  ghost function Taken(p: Place, most: nat, n: nat, way: Way, dim: Dim, host: Host): Option<Place> {
    match Roomy(p, Wanted(p.cell, most, way), dim, host)
    case None => None
    case Some(q) => Some(Counted(q, n, way, dim))
  }

  class Accumulator<E(0)> {
    const arena: A.Arena
    const host: Host
    const size: nat
    const align: nat
    var acc: nat
    var slots: array<E>
    var n: nat
    var cap: nat
    ghost var k: nat
    ghost var elems: seq<E>

    ghost function Held(): Cell
      reads this
    {
      Cell(acc, n, cap)
    }

    ghost function Where(): Place
      reads this, arena
    {
      Place(arena.View(), Held())
    }

    ghost function View(): Holding<E>
      reads this, slots
    {
      Holding(acc, k, n, cap, slots[..], elems)
    }

    ghost predicate Valid()
      reads this, arena, slots
    {
      arena.Valid() && A.Grounded(arena.View()) && InPlace(View(), size, align, arena.live) && Honest(host)
    }

    constructor (arena: A.Arena, host: Host, size: nat, align: nat)
      requires arena.Valid() && A.Grounded(arena.View()) && Honest(host) && size >= 1 && align >= 1
      ensures Valid() && elems == [] && Held() == Cell(0, 0, 0) && fresh(slots)
      ensures this.arena == arena && this.host == host && this.size == size && this.align == align
    {
      this.arena, this.host, this.size, this.align := arena, host, size, align;
      acc, n, cap := 0, 0, 0;
      slots := new E[0];
      k, elems := 0, [];
    }

    /** Move to a new block of count elements. On failure nothing changes. */
    method GrowTo(count: nat) returns (ok: bool)
      requires Valid() && count > cap
      modifies this`acc, this`slots, this`cap, this`k, arena
      ensures arena.Valid() && A.Grounded(arena.View()) && n == old(n) && elems == old(elems)
      ensures old(arena.live) <= arena.live
      ensures Some(Where()) == if ok then Roomy(old(Where()), count, Dim(size, align), host) else Some(old(Where()))
      ensures !ok ==> Roomy(old(Where()), count, Dim(size, align), host).None?
      ensures !ok ==> arena.live == old(arena.live) && acc == old(acc) && slots == old(slots) && cap == old(cap) && k == old(k)
      ensures ok ==> cap == count == slots.Length && fresh(slots) && slots[..n] == elems
                     && acc != 0 && k == |old(arena.live)| < |arena.live|
                     && arena.live[k].addr == acc && arena.live[k].size == count * size
    {
      hide A.MemOk, A.LiveOk, A.Grounded, A.HostOk, A.Allocated, Honest;
      HonestAnswer(host, arena.View(), count * size + align);
      CursorIsOk(arena);
      var nb := arena.AllocateArray(count, size, align, host(arena.View(), count * size + align));
      if nb == 0 {
        return false;
      }
      var ns := new E[count];
      for i := 0 to n
        invariant ns[..i] == slots[..i]
        invariant slots == old(slots) && slots[..n] == elems && n == old(n) && elems == old(elems)
        modifies ns
      {
        ns[i] := slots[i];
      }
      k := |arena.live| - 1;
      acc, slots, cap := nb, ns, count;
      return true;
    }

    /** An expanded element: the slot lambda's geometric growth, then the store. */
    method Append(e: E) returns (r: Step)
      requires Valid()
      modifies this, arena, slots
      ensures r == Ok || r == OutOfMemory
      ensures r == OutOfMemory <==> Taken(old(Where()), 1, 1, Expanded, Dim(size, align), host).None?
      ensures r == Ok ==> Taken(old(Where()), 1, 1, Expanded, Dim(size, align), host) == Some(Where())
      ensures r == Ok ==> Valid() && elems == old(elems) + [e] && OthersKept(old(arena.live), arena.live, old(k), old(acc))
      ensures r == Ok ==> (acc == old(acc) && k == old(k)) || k >= |old(arena.live)|
      ensures fresh(slots) || slots == old(slots)
    {
      hide A.MemOk, A.LiveOk, A.Grounded, A.HostOk, Request;
      if n == cap {
        var ok := GrowTo(if cap == 0 then 4 else cap * 2);
        if !ok {
          return OutOfMemory;
        }
      }
      Fewer(n + 1, cap, size);
      slots[n] := e;
      n := n + 1;
      elems := elems + [e];
      return Ok;
    }

    /** Room for more elements, as the packed arms reserve it. */
    method Reserve(more: nat) returns (ok: bool)
      requires Valid()
      modifies this`acc, this`slots, this`cap, this`k, arena
      ensures arena.Valid() && A.Grounded(arena.View()) && n == old(n) && elems == old(elems)
      ensures old(arena.live) <= arena.live
      ensures fresh(slots) || slots == old(slots)
      ensures ok <==> Roomy(old(Where()), Wanted(old(Held()), more, FixedSpan), Dim(size, align), host).Some?
      ensures ok ==> Roomy(old(Where()), Wanted(old(Held()), more, FixedSpan), Dim(size, align), host) == Some(Where())
      ensures ok ==> n + more <= cap <= slots.Length && (n + more == 0 ==> cap == 0) && slots[..n] == elems
      ensures ok ==> if acc == 0 then cap == 0 else
                       k < |arena.live| && arena.live[k].addr == acc && cap * size <= arena.live[k].size
                       && (n < cap ==> arena.live[k].size == cap * size)
      ensures ok ==> (acc == old(acc) && k == old(k)) || k >= |old(arena.live)|
    {
      hide A.MemOk, A.LiveOk, A.Grounded, A.HostOk, Request;
      ok := true;
      if more != 0 && cap < n + more {
        ok := GrowTo(n + more);
      }
    }

    /** Decode a span into the slots from n on, by the kernels or by the byte loop. */
    method Fill(span: seq<bv8>, conv: bv64 -> E) returns (out: Outcome)
      requires n + |span| <= slots.Length && slots[..n] == elems && |elems| == n
      modifies slots
      ensures match DecodeSpan(span)
              case Values(vals) =>
                && out == Count(|vals|) && |vals| <= |span| && (vals == [] <==> span == [])
                && slots[..n + |vals|] == elems + Converted(vals, conv)
              case Malformed(e, off) => out == Error(e, off)
    {
      hide DecodeSpan, ArraySink.Valid;
      var sink := new ArraySink<E>(slots, n, |span|, conv);
      assert sink.before[..n] == elems;
      if |span| >= KERNEL_MIN_SPAN {
        out := DecodePackedVarints(span, 0, sink);
      } else {
        out := DecodePackedSmall(span, sink);
      }
      if out.Count? {
        CountWithinSpan(span);
        NonEmptyDecodes(span);
        SinkLength(sink);
        SinkContents(sink, elems, n, sink.vals);
      }
    }

    /** Give the unused tail back if the block is still the arena's last, and count only what is used as capacity. */
    method TrimToCount()
      requires size >= 1 && align >= 1 && arena.Valid() && A.Grounded(arena.View())
      requires n <= cap <= slots.Length && (n == 0 ==> cap == 0) && slots[..n] == elems
      requires if acc == 0 then cap == 0 else
                 k < |arena.live| && arena.live[k].addr == acc && cap * size <= arena.live[k].size
                 && (n < cap ==> arena.live[k].size == cap * size)
      modifies this`cap, arena
      requires Honest(host)
      ensures Valid() && cap == n && OthersKept(old(arena.live), arena.live, k, acc)
      ensures Where() == Counted(old(Where()), 0, VarintSpan, Dim(size, align))
    {
      hide A.MemOk, A.LiveOk, A.Grounded;
      Fewer(n, cap, size);
      arena.ShrinkLast(acc, cap * size, n * size, k);
      cap := n;
    }

    /** A packed varint span: reserve its byte length, decode in place, trim to the exact count. */
    method PackedVarints(span: seq<bv8>, conv: bv64 -> E) returns (r: Step)
      requires Valid()
      modifies this, arena, slots
      ensures fresh(slots) || slots == old(slots)
      ensures match DecodeSpan(span)
              case Values(vals) =>
                && (r == Ok || r == OutOfMemory)
                && (r == Ok ==> Taken(old(Where()), |span|, |vals|, VarintSpan, Dim(size, align), host) == Some(Where()))
                && (r == Ok ==> Valid() && elems == old(elems) + Converted(vals, conv)
                                && OthersKept(old(arena.live), arena.live, old(k), old(acc)))
              case Malformed(e, off) => r == Wire(e, off) || r == OutOfMemory
      ensures r == OutOfMemory <==> Taken(old(Where()), |span|, 0, VarintSpan, Dim(size, align), host).None?
      ensures r == Ok ==> (acc == old(acc) && k == old(k)) || k >= |old(arena.live)|
    {
      hide A.MemOk, A.LiveOk, A.Grounded, A.HostOk, A.Shrunk, Roomy, Honest, DecodeSpan;
      var ok := Reserve(|span|);
      if !ok {
        return OutOfMemory;
      }
      var out := Fill(span, conv);
      if out.Error? {
        return Wire(out.error, out.failOffset);
      }
      n := n + out.n;
      elems := elems + Converted(DecodeSpan(span).vals, conv);
      TrimToCount();
      return Ok;
    }

    /** Read the span's whole elements, one after another, into the slots from n on; q is where the reading stops. */
    method FillFixed(span: seq<bv8>, width: nat, elem: seq<bv8> -> E) returns (i: nat, q: nat)
      requires (width == 4 || width == 8) && n + |span| / width <= slots.Length && slots[..n] == elems && |elems| == n
      modifies slots
      ensures i == |span| / width == |FixedElements(span, width, elem)|
      ensures q <= |span| && |span| - q < width && |span| - q == |span| % width
      ensures slots[..n + i] == elems + FixedElements(span, width, elem)
    {
      hide FixedElements;
      i, q := 0, 0;
      FixedCount(span, width, elem);
      ghost var all := FixedElements(span, width, elem);
      assert span[0..] == span && slots[..n + i] + all == elems + all;
      while |span| - q >= width
        invariant q <= |span| && SameRemainder(|span|, |span| - q, width)
        invariant i + |FixedElements(span[q..], width, elem)| == |all|
        invariant slots[..n + i] + FixedElements(span[q..], width, elem) == elems + all
        modifies slots
      {
        FixedNext(span, q, width, elem);
        ghost var was, rest := slots[..n + i], FixedElements(span[q + width..], width, elem);
        slots[n + i] := elem(span[q..q + width]);
        assert slots[..n + i + 1] == was + [slots[n + i]];
        AppendAssoc(was, [slots[n + i]], rest);
        i, q := i + 1, q + width;
      }
      FixedDone(span[q..], width, elem);
      assert slots[..n + i] + [] == slots[..n + i];
      SmallRemainder(|span|, |span| - q, width);
    }

    /** A packed span of fixed-width elements: its whole elements are reserved exactly and stored in order; a partial
        last element is the truncation the per-element read reports. */
    method PackedFixed(span: seq<bv8>, width: nat, elem: seq<bv8> -> E) returns (r: Step)
      requires Valid() && (width == 4 || width == 8)
      modifies this, arena, slots
      ensures fresh(slots) || slots == old(slots)
      ensures r == OutOfMemory || (r == Ok <==> |span| % width == 0)
      ensures var n := |FixedElements(span, width, elem)|;
              && (r == OutOfMemory <==> Taken(old(Where()), |span| / width, n, FixedSpan, Dim(size, align), host).None?)
              && (r == Ok ==> Taken(old(Where()), |span| / width, n, FixedSpan, Dim(size, align), host) == Some(Where()))
      ensures r == Ok ==> Valid() && elems == old(elems) + FixedElements(span, width, elem)
                          && OthersKept(old(arena.live), arena.live, old(k), old(acc))
      ensures r == Ok ==> (acc == old(acc) && k == old(k)) || k >= |old(arena.live)|
      ensures r.Wire? ==> r.error == (if width == 4 then TruncatedI32 else TruncatedI64)
                          && r.offset == |span| - |span| % width
    {
      hide A.MemOk, A.LiveOk, A.Grounded, A.HostOk, Roomy, Honest, FixedElements;
      var ok := Reserve(|span| / width);
      if !ok {
        return OutOfMemory;
      }
      var count, q := FillFixed(span, width, elem);
      if q < |span| {
        return Wire(if width == 4 then TruncatedI32 else TruncatedI64, q);
      }
      n := n + count;
      elems := elems + FixedElements(span, width, elem);
      return Ok;
    }
  }

  lemma CursorIsOk(arena: A.Arena)
    requires arena.Valid()
    ensures CursorOk(arena.View())
  {
  }

  lemma SinkLength<E>(sink: ArraySink<E>)
    requires sink.Valid()
    ensures |sink.before| == sink.out.Length
  {
  }

  ghost function Converted<E>(vals: seq<bv64>, conv: bv64 -> E): seq<E> {
    seq(|vals|, i requires 0 <= i < |vals| => conv(vals[i]))
  }

  /** Blocks handed out earlier, other than the accumulator's own, are as they were. */
  ghost predicate OthersKept(before: seq<A.Block>, after: seq<A.Block>, own: nat, acc: nat) {
    |before| <= |after| && forall j :: 0 <= j < |before| && (acc == 0 || j != own) ==> after[j] == before[j]
  }

  lemma CountWithinSpan(span: seq<bv8>)
    ensures DecodeSpan(span).Values? ==> |DecodeSpan(span).vals| <= |span|
  {
    CountWithinBytes(span, 0, []);
  }

  /** A span with bytes, if it decodes at all, has elements. */
  lemma NonEmptyDecodes(span: seq<bv8>)
    ensures DecodeSpan(span).Values? ==> (|DecodeSpan(span).vals| == 0 <==> span == [])
  {
    if span != [] && DecodeSpan(span).Values? {
      hide VarintAt;
      VarintAdvances(span, 0);
      var r := VarintAt(span, 0, |span|);
      CountWithinBytes(span, r.next, [] + [r.value]);
    }
  }

  lemma SinkContents<E>(sink: ArraySink<E>, elems: seq<E>, n: nat, vals: seq<bv64>)
    requires sink.Valid() && sink.vals == vals && sink.at == n == |elems| && n <= |sink.before|
    requires sink.before[..n] == elems
    ensures n + |vals| <= sink.out.Length && sink.out[..n + |vals|] == elems + Converted(vals, sink.conv)
  {
    var got, want := sink.out[..n + |vals|], elems + Converted(vals, sink.conv);
    forall i | 0 <= i < |got| ensures got[i] == want[i] {
      if i < n {
        assert sink.out[i] == sink.before[i] == sink.before[..n][i];
      } else {
        assert sink.out[n + (i - n)] == sink.conv(vals[i - n]);
      }
    }
  }

  /** The byte loop for spans below the kernel threshold. */
  method DecodePackedSmall<E>(s: seq<bv8>, sink: ArraySink<E>) returns (r: Outcome)
    requires sink.Valid() && sink.vals == [] && |s| <= sink.room
    modifies sink, sink.out
    ensures sink.Valid()
    ensures match DecodeSpan(s)
            case Values(vals) => r == Count(|vals|) && sink.vals == vals
            case Malformed(e, off) => r == Error(e, off)
  {
    hide VarintAt, ArraySink.Valid;
    var q: nat, n: nat := 0, 0;
    while q < |s|
      invariant Running(s, q, n, sink)
      decreases |s| - q
    {
      var v := ReadVarint(s, q, |s|);
      if v.Fail? {
        return Error(v.error, q);
      }
      VarintAdvances(s, q);
      Take(s, q, n, v.value, v.next, sink);
      q, n := v.next, n + 1;
    }
    return Count(n);
  }

  // ---- any interleaving ----------------------------------------------------------------------

  /** A record of one field. */
  datatype Record<E> = One(e: E) | Varints(span: seq<bv8>) | FixedWidth(span: seq<bv8>)

  /** What arrives while a message is decoded: a record of one of its fields, an allocation made by other code, such as
      a sub-message, or a trim such code makes of the j-th block it owns. */
  datatype Event<E> = Arrives(field: nat, record: Record<E>) | Allocates(bytes: nat, align: nat) | Trims(j: nat, newBytes: nat)

  /** How a field reads its values: the varint conversion, and the fixed width with its element reader. */
  datatype Reader<!E> = Reader(conv: bv64 -> E, width: nat, elem: seq<bv8> -> E)

  ghost predicate ReaderOk<E>(f: Reader<E>) { f.width == 4 || f.width == 8 }

  ghost predicate WellFormed<E>(r: Record<E>, f: Reader<E>)
    requires ReaderOk(f)
  {
    match r
    case One(_) => true
    case Varints(span) => DecodeSpan(span).Values?
    case FixedWidth(span) => |span| % f.width == 0
  }

  /** The elements a record carries. */
  ghost function Elements<E>(r: Record<E>, f: Reader<E>): seq<E>
    requires ReaderOk(f)
  {
    match r
    case One(e) => [e]
    case Varints(span) => if DecodeSpan(span).Values? then Converted(DecodeSpan(span).vals, f.conv) else []
    case FixedWidth(span) => FixedElements(span, f.width, f.elem)
  }

  /** All the elements the events bring to one field, in wire order. */
  ghost function AllElements<E>(es: seq<Event<E>>, field: nat, f: Reader<E>): seq<E>
    requires ReaderOk(f)
  {
    if es == [] then [] else AllElements(es[..|es| - 1], field, f) + Brings(es[|es| - 1], field, f)
  }

  /** What one event brings to the field. */
  ghost function Brings<E>(e: Event<E>, field: nat, f: Reader<E>): seq<E>
    requires ReaderOk(f)
  {
    if e.Arrives? && e.field == field then Elements(e.record, f) else []
  }

  /** What other code allocates has bytes, and what it trims keeps some. */
  predicate Sizable<E>(e: Event<E>) {
    match e
    case Arrives(_, _) => true
    case Allocates(bytes, align) => bytes > 0 && align >= 1
    case Trims(_, newBytes) => newBytes > 0
  }

  ghost predicate EventOk<E>(e: Event<E>, readers: seq<Reader<E>>)
    requires forall i :: 0 <= i < |readers| ==> ReaderOk(readers[i])
  {
    e.Arrives? && e.field < |readers| ==> WellFormed(e.record, readers[e.field])
  }

  /** The most elements a record can add. */
  ghost function More<E>(r: Record<E>, f: Reader<E>): nat
    requires ReaderOk(f)
  {
    match r
    case One(_) => 1
    case Varints(span) => |span|
    case FixedWidth(span) => |span| / f.width
  }

  ghost function WayOf<E>(r: Record<E>): Way {
    match r case One(_) => Expanded case Varints(_) => VarintSpan case FixedWidth(_) => FixedSpan
  }

  /** Where a record leaves the arena and the accumulator's block. */
  ghost function Stored<E>(p: Place, r: Record<E>, f: Reader<E>, dim: Dim, host: Host): Option<Place>
    requires ReaderOk(f)
  {
    Taken(p, More(r, f), |Elements(r, f)|, WayOf(r), dim, host)
  }

  /** One record into its accumulator. */
  method Store<E(0)>(a: Accumulator<E>, record: Record<E>, f: Reader<E>) returns (r: Step)
    requires a.Valid() && ReaderOk(f)
    modifies a, a.arena, a.slots
    ensures fresh(a.slots) || a.slots == old(a.slots)
    ensures r == Ok ==> a.Valid() && WellFormed(record, f) && a.elems == old(a.elems) + Elements(record, f)
    ensures r == Ok ==> OthersKept(old(a.arena.live), a.arena.live, old(a.k), old(a.acc))
    ensures r == Ok ==> (a.acc == old(a.acc) && a.k == old(a.k)) || a.k >= |old(a.arena.live)|
    ensures r == OutOfMemory <==> Stored(old(a.Where()), record, f, Dim(a.size, a.align), a.host).None?
    ensures r == Ok ==> Stored(old(a.Where()), record, f, Dim(a.size, a.align), a.host) == Some(a.Where())
    ensures r.Wire? ==> !WellFormed(record, f)
  {
    hide A.MemOk, A.LiveOk, A.Grounded, A.HostOk, DecodeSpan, FixedElements, Accumulator.Valid, OthersKept, Roomy, Wanted;
    match record
    case One(e) => r := a.Append(e);
    case Varints(span) => r := a.PackedVarints(span, f.conv);
    case FixedWidth(span) => r := a.PackedFixed(span, f.width, f.elem);
  }

  /** A block that other code owns, by the address and size it knows; once trimmed it is not trimmed again, since its
      owner is not told whether the trim took effect. */
  datatype Owned = Owned(addr: nat, size: nat, trimmable: bool)

  /** The arena, the block of each accumulator, and the blocks other code owns. */
  datatype Memory = Memory(mem: A.Mem, cells: seq<Cell>, others: seq<Owned>)

  /** What one event makes of them; none when the arena cannot serve it. */
  ghost function Served<E>(s: Memory, e: Event<E>, readers: seq<Reader<E>>, dims: seq<Dim>, host: Host): Option<Memory>
    requires |readers| == |dims| && forall i :: 0 <= i < |readers| ==> ReaderOk(readers[i])
  {
    match e
    case Arrives(i, record) =>
      if i >= |s.cells| || i >= |readers| then Some(s) else
        (match Stored(Place(s.mem, s.cells[i]), record, readers[i], dims[i], host)
         case None => None
         case Some(p) => Some(s.(mem := p.mem, cells := s.cells[i := p.cell])))
    case Allocates(bytes, align) =>
      var (m, addr) := Request(s.mem, bytes, align, host);
      if addr == 0 then None else Some(s.(mem := m, others := s.others + [Owned(addr, bytes, true)]))
    case Trims(j, newBytes) =>
      if j >= |s.others| || !s.others[j].trimmable then Some(s) else
        var o := s.others[j];
        Some(s.(mem := A.Shrunk(s.mem, o.addr, o.size, newBytes), others := s.others[j := o.(trimmable := false)]))
  }

  /** The same for events one after another. */
  ghost function AllServed<E>(s: Memory, es: seq<Event<E>>, readers: seq<Reader<E>>, dims: seq<Dim>, host: Host): Option<Memory>
    requires |readers| == |dims| && forall i :: 0 <= i < |readers| ==> ReaderOk(readers[i])
  {
    if es == [] then Some(s) else
      match AllServed(s, es[..|es| - 1], readers, dims, host)
      case None => None
      case Some(before) => Served(before, es[|es| - 1], readers, dims, host)
  }

  /** The events es are well formed and served, and the arena cannot serve the next one. */
  ghost predicate Exhausted<E>(s: Memory, es: seq<Event<E>>, e: Event<E>, readers: seq<Reader<E>>, dims: seq<Dim>, host: Host)
    requires |readers| == |dims| && forall i :: 0 <= i < |readers| ==> ReaderOk(readers[i])
  {
    && (forall k :: 0 <= k < |es| ==> EventOk(es[k], readers))
    && AllServed(s, es, readers, dims, host).Some? && AllServed(s, es + [e], readers, dims, host).None?
  }

  /** The events es are well formed and served, and so is the next one but for being malformed. */
  ghost predicate Spoiled<E>(s: Memory, es: seq<Event<E>>, e: Event<E>, readers: seq<Reader<E>>, dims: seq<Dim>, host: Host)
    requires |readers| == |dims| && forall i :: 0 <= i < |readers| ==> ReaderOk(readers[i])
  {
    && (forall k :: 0 <= k < |es| ==> EventOk(es[k], readers)) && !EventOk(e, readers)
    && AllServed(s, es + [e], readers, dims, host).Some?
  }

  /** The accumulators of one message's fields, and blocks other code owns, all on one arena. */
  class Fields<E(0)> {
    const arena: A.Arena
    const host: Host
    const accs: seq<Accumulator<E>>
    const readers: seq<Reader<E>>
    var others: seq<Owned>
    ghost var places: seq<nat>

    ghost function Objects(): set<object> { set i | 0 <= i < |accs| :: accs[i] }

    ghost function Arrays(): set<object>
      reads Objects()
    {
      set i | 0 <= i < |accs| :: accs[i].slots
    }

    /** Each accumulator is in order, and no two users have a block, or an array, in common. */
    ghost predicate Valid()
      reads this, arena, Objects(), Arrays()
    {
      && arena.Valid() && A.Grounded(arena.View()) && Honest(host)
      && |readers| == |accs| && |places| == |others|
      && (forall i :: 0 <= i < |accs| ==> accs[i].arena == arena && accs[i].host == host && accs[i].Valid() && ReaderOk(readers[i]))
      && (forall i, j :: 0 <= i < j < |accs| ==> Apart(accs[i], accs[j]))
      && (forall j :: 0 <= j < |others| ==> Knows(arena.live, others[j], places[j]))
      && (forall j, l :: 0 <= j < l < |others| ==> places[j] != places[l])
      && (forall i, j :: 0 <= i < |accs| && 0 <= j < |others| ==> accs[i].acc == 0 || accs[i].k != places[j])
    }

    ghost function Dims(): (r: seq<Dim>)
      ensures |r| == |accs|
    {
      seq(|accs|, i requires 0 <= i < |accs| => Dim(accs[i].size, accs[i].align))
    }

    ghost function Now(): Memory
      reads this, arena, Objects()
    {
      Memory(arena.View(), seq(|accs|, i requires 0 <= i < |accs| reads Objects() => accs[i].Held()), others)
    }

    constructor (arena: A.Arena, host: Host, accs: seq<Accumulator<E>>, readers: seq<Reader<E>>)
      requires arena.Valid() && A.Grounded(arena.View()) && Honest(host) && |readers| == |accs|
      requires forall i :: 0 <= i < |accs| ==> accs[i].arena == arena && accs[i].host == host && accs[i].Valid() && ReaderOk(readers[i])
      requires forall i, j :: 0 <= i < j < |accs| ==> Apart(accs[i], accs[j])
      ensures Valid() && this.arena == arena && this.host == host && this.accs == accs && this.readers == readers && others == []
    {
      this.arena, this.host, this.accs, this.readers := arena, host, accs, readers;
      others, places := [], [];
    }

    /** A record of one field: its accumulator grows, fills or trims, and every other user keeps its block. */
    method Arrive(i: nat, record: Record<E>) returns (r: Step)
      requires Valid() && i < |accs|
      modifies arena, Objects(), Arrays()
      ensures forall j :: 0 <= j < |accs| ==> fresh(accs[j].slots) || accs[j].slots == old(accs[j].slots)
      ensures r == Ok ==> Valid() && WellFormed(record, readers[i])
      ensures r == Ok ==> forall j :: 0 <= j < |accs| ==>
                accs[j].elems == old(accs[j].elems) + if j == i then Elements(record, readers[i]) else []
      ensures r == OutOfMemory <==> Served(old(Now()), Arrives(i, record), readers, Dims(), host).None?
      ensures r == Ok ==> Served(old(Now()), Arrives(i, record), readers, Dims(), host) == Some(Now())
      ensures r.Wire? ==> !WellFormed(record, readers[i])
    {
      hide A.Arena.Valid, A.Grounded, OthersKept, Knows, WellFormed, Elements, InPlace, Stored, Honest;
      ghost var now := Now();
      ghost var a, live := accs[i], arena.live;
      ghost var k, acc := a.k, a.acc;
      forall j | 0 <= j < |accs| ensures accs[j].acc != 0 ==> accs[j].k < |live| {
        SharedArena(accs[j]);
      }
      forall j | 0 <= j < |others| ensures places[j] < |live| {
        KnownIsLive(live, others[j], places[j]);
      }
      r := Store(accs[i], record, readers[i]);
      if r == Ok {
        assert Now().cells == now.cells[i := a.Held()];
        SharedArena(a);
        forall j | 0 <= j < |accs| && j != i ensures accs[j].Valid() {
          var b := accs[j];
          assert b.View() == old(b.View());
          StillInPlace(b.View(), b.size, b.align, live, arena.live, k, acc);
        }
        forall j, l | 0 <= j < l < |accs| ensures Apart(accs[j], accs[l]) {
          assert old(Apart(accs[j], accs[l]));
        }
        forall j | 0 <= j < |others| ensures Knows(arena.live, others[j], places[j]) {
          StillKnown(live, arena.live, k, acc, others[j], places[j]);
        }
      }
    }

    /** A request of the arena, with the host's answer to it. */
    method Ask(bytes: nat, align: nat) returns (p: nat)
      requires arena.Valid() && Honest(host) && bytes > 0 && align >= 1
      modifies arena
      ensures arena.Valid() && (arena.View(), p) == Request(old(arena.View()), bytes, align, host)
      ensures p != 0 ==> A.Grounded(arena.View()) && arena.live == old(arena.live) + [A.Block(p, bytes, align, arena.cursor)]
    {
      hide Honest, A.MemOk, A.LiveOk, A.Grounded, A.HostOk, A.Allocated;
      HonestAnswer(host, arena.View(), bytes + align);
      CursorIsOk(arena);
      p := arena.Allocate(bytes, align, host(arena.View(), bytes + align));
    }

    /** Other code allocates a block. */
    method Allocate(bytes: nat, align: nat) returns (ok: bool)
      requires Valid() && bytes > 0 && align >= 1
      modifies arena, this`others, this`places
      ensures ok ==> Valid()
      ensures ok <==> Served(old(Now()), Allocates(bytes, align), readers, Dims(), host).Some?
      ensures ok ==> Served(old(Now()), Allocates(bytes, align), readers, Dims(), host) == Some(Now())
    {
      hide Honest, A.MemOk, A.LiveOk, A.Grounded, Request, OthersKept, Knows, InPlace;
      ghost var live := arena.live;
      forall j | 0 <= j < |accs| ensures accs[j].acc != 0 ==> accs[j].k < |live| {
        SharedArena(accs[j]);
      }
      forall j | 0 <= j < |others| ensures places[j] < |live| {
        KnownIsLive(live, others[j], places[j]);
      }
      ghost var now := Now();
      var p := Ask(bytes, align);
      ok := p != 0;
      if ok {
        LiveGrew(live, arena.live);
        Newly(arena.live, p, bytes, |live|);
        forall j | 0 <= j < |accs| ensures accs[j].Valid() {
          StillInPlace(accs[j].View(), accs[j].size, accs[j].align, live, arena.live, 0, 0);
        }
        forall j | 0 <= j < |others| ensures Knows(arena.live, others[j], places[j]) {
          StillKnown(live, arena.live, 0, 0, others[j], places[j]);
        }
        others, places := others + [Owned(p, bytes, true)], places + [|live|];
        assert Now().cells == now.cells;
      }
    }

    /** Other code trims a block it owns, which may or may not take effect. */
    method Trim(j: nat, newBytes: nat)
      requires Valid() && j < |others| && others[j].trimmable && newBytes > 0
      modifies arena, this`others
      ensures Valid()
      ensures Served(old(Now()), Trims(j, newBytes), readers, Dims(), host) == Some(Now())
    {
      ghost var now := Now();
      hide Honest, A.Shrunk, A.MemOk, A.LiveOk, A.Grounded, A.HostOk, A.TrimmedLive, OthersKept, Knows, InPlace;
      ghost var live := arena.live;
      forall i | 0 <= i < |accs| ensures accs[i].acc != 0 ==> accs[i].k < |live| {
        SharedArena(accs[i]);
      }
      ghost var place := places[j];
      var addr := others[j].addr;
      KnownIsTrue(live, others[j], place);
      arena.ShrinkLast(addr, others[j].size, newBytes, place);
      TrimKeepsOthers(live, old(arena.cur), addr, others[j].size, newBytes, place);
      forall i | 0 <= i < |accs| ensures accs[i].Valid() {
        StillInPlace(accs[i].View(), accs[i].size, accs[i].align, live, arena.live, place, 1);
      }
      forall l | 0 <= l < |others| && l != j ensures Knows(arena.live, others[l], places[l]) {
        StillKnown(live, arena.live, place, 1, others[l], places[l]);
      }
      Forgotten(arena.live, others[j], place);
      others := others[j := others[j].(trimmable := false)];
      assert Now().cells == now.cells;
    }

    /** One event, and what it brings to each field. */
    method Handle(e: Event<E>) returns (r: Step)
      requires Valid() && Sizable(e)
      modifies this`others, this`places, arena, Objects(), Arrays()
      ensures forall j :: 0 <= j < |accs| ==> fresh(accs[j].slots) || accs[j].slots == old(accs[j].slots)
      ensures r == Ok ==> Valid() && EventOk(e, readers)
      ensures r == Ok ==> forall j :: 0 <= j < |accs| ==>
                accs[j].elems == old(accs[j].elems) + Brings(e, j, readers[j])
      ensures r == OutOfMemory <==> Served(old(Now()), e, readers, Dims(), host).None?
      ensures r == Ok ==> Served(old(Now()), e, readers, Dims(), host) == Some(Now())
      ensures r.Wire? ==> !EventOk(e, readers)
    {
      hide WellFormed, Elements, InPlace, Accumulator.Valid, Knows, Apart, Stored, Honest;
      r := Ok;
      match e
      case Arrives(field, record) =>
        if field < |accs| {
          r := Arrive(field, record);
        }
      case Allocates(bytes, align) =>
        var ok := Allocate(bytes, align);
        r := if ok then Ok else OutOfMemory;
      case Trims(j, newBytes) =>
        if j < |others| && others[j].trimmable {
          Trim(j, newBytes);
        }
    }

    /** The state after these events, which began from `start`. */
    ghost predicate Holds(start: Memory, es: seq<Event<E>>)
      reads this, arena, Objects(), Arrays()
    {
      && Valid()
      && (forall i :: 0 <= i < |accs| ==> accs[i].elems == AllElements(es, i, readers[i]))
      && (forall k :: 0 <= k < |es| ==> EventOk(es[k], readers))
      && AllServed(start, es, readers, Dims(), host) == Some(Now())
    }

    /** One more event. */
    method Next(ghost start: Memory, ghost es: seq<Event<E>>, e: Event<E>) returns (r: Step)
      requires Holds(start, es) && Sizable(e)
      modifies this`others, this`places, arena, Objects(), Arrays()
      ensures forall j :: 0 <= j < |accs| ==> fresh(accs[j].slots) || accs[j].slots == old(accs[j].slots)
      ensures r == Ok ==> Holds(start, es + [e])
      ensures r == OutOfMemory ==> Exhausted(start, es, e, readers, Dims(), host)
      ensures r.Wire? ==> Spoiled(start, es, e, readers, Dims(), host)
    {
      hide Brings, EventOk, Sizable, Valid, Served;
      InOrder();
      r := Handle(e);
      assert (es + [e])[..|es|] == es;
      if r == Ok {
        InOrder();
      }
    }

    /** Handles the events up to the k-th, the first that is not served or is malformed. */
    method HandleAll(es: seq<Event<E>>) returns (r: Step, ghost k: nat)
      requires Holds(Now(), []) && forall k :: 0 <= k < |es| ==> Sizable(es[k])
      modifies this`others, this`places, arena, Objects(), Arrays()
      ensures forall i :: 0 <= i < |accs| ==> fresh(accs[i].slots) || accs[i].slots == old(accs[i].slots)
      ensures r == Ok ==> Holds(old(Now()), es)
      ensures r == OutOfMemory ==> k < |es| && Exhausted(old(Now()), es[..k], es[k], readers, Dims(), host)
      ensures r.Wire? ==> k < |es| && Spoiled(old(Now()), es[..k], es[k], readers, Dims(), host)
    {
      hide Holds, Valid, EventOk, Sizable, Exhausted, Spoiled, Dims;
      ghost var start := Now();
      k := 0;
      for i := 0 to |es|
        invariant k == i && Holds(start, es[..i])
        invariant forall i :: 0 <= i < |accs| ==> fresh(accs[i].slots) || accs[i].slots == old(accs[i].slots)
      {
        assert es[..i + 1] == es[..i] + [es[i]];
        r := Next(start, es[..i], es[i]);
        if r != Ok {
          return;
        }
        k := k + 1;
      }
      assert es[..|es|] == es;
      r := Ok;
    }

    /** Whatever mix of records of all the fields arrives, with the allocations and trims of other code in between: each
      * field's slots hold the concatenation of all its elements in wire order. It runs out of memory, or meets a
      * malformed record, only at the first event for which that is so, and never runs out when the current chunk has
      * room for all that the events ask. */
    method Decode(es: seq<Event<E>>) returns (r: Step)
      requires Valid() && (forall k :: 0 <= k < |es| ==> Sizable(es[k])) && forall i :: 0 <= i < |accs| ==> accs[i].elems == []
      modifies this`others, this`places, arena, Objects(), Arrays()
      ensures |readers| == |accs| && forall i :: 0 <= i < |readers| ==> ReaderOk(readers[i])
      ensures r == Ok ==> Holds(old(Now()), es) && forall i :: 0 <= i < |accs| ==> accs[i].slots[..accs[i].n] == AllElements(es, i, readers[i])
      ensures r == OutOfMemory ==> exists k :: 0 <= k < |es| && Exhausted(old(Now()), es[..k], es[k], readers, Dims(), host)
      ensures Left(old(arena.View()), AllAsked(old(Now()).cells, es, readers, Dims())) ==> r != OutOfMemory
      ensures r.Wire? ==> exists k :: 0 <= k < |es| && Spoiled(old(Now()), es[..k], es[k], readers, Dims(), host)
    {
      InOrder();
      Aligned();
      assert Holds(Now(), []);
      hide Holds, Valid, Sizable, Exhausted, Spoiled, Dims, Left, AllAsked, AllServed;
      ghost var start, k := Now(), 0;
      r, k := HandleAll(es);
      if r == OutOfMemory {
        RanOut(start, es, readers, Dims(), host, k);
      } else if r == Ok {
        Filled(start, es);
      }
    }

    lemma Filled(start: Memory, es: seq<Event<E>>)
      requires Holds(start, es)
      ensures |readers| == |accs|
      ensures forall i :: 0 <= i < |accs| ==>
                ReaderOk(readers[i]) && accs[i].n <= accs[i].slots.Length && accs[i].slots[..accs[i].n] == AllElements(es, i, readers[i])
    {
      InOrder();
    }

    lemma Aligned()
      requires Valid()
      ensures forall i :: 0 <= i < |accs| ==> Dims()[i].align >= 1
    {
      forall i | 0 <= i < |accs| ensures Dims()[i].align >= 1 {
        assert accs[i].Valid();
      }
    }

    lemma InOrder()
      requires Valid()
      ensures |readers| == |accs|
      ensures forall i :: 0 <= i < |accs| ==>
                ReaderOk(readers[i]) && accs[i].n <= accs[i].slots.Length && accs[i].slots[..accs[i].n] == accs[i].elems
    {
      forall i | 0 <= i < |accs|
        ensures accs[i].n <= accs[i].slots.Length && accs[i].slots[..accs[i].n] == accs[i].elems
      {
        assert accs[i].Valid();
        assert accs[i].slots[..][..accs[i].n] == accs[i].slots[..accs[i].n];
      }
    }
  }

  lemma KnownIsTrue(live: seq<A.Block>, o: Owned, place: nat)
    requires Knows(live, o, place) && o.trimmable
    ensures place < |live| && live[place].addr == o.addr && live[place].size == o.size
  {
  }

  lemma TrimKeepsOthers(live: seq<A.Block>, cur: nat, ptr: nat, oldBytes: nat, newBytes: nat, place: nat)
    requires place < |live|
    ensures OthersKept(live, A.TrimmedLive(live, cur, ptr, oldBytes, newBytes, place), place, 1)
    ensures |A.TrimmedLive(live, cur, ptr, oldBytes, newBytes, place)| == |live|
  {
  }

  lemma Forgotten(live: seq<A.Block>, o: Owned, place: nat)
    requires place < |live|
    ensures Knows(live, o.(trimmable := false), place)
  {
  }

  lemma LiveGrew(before: seq<A.Block>, after: seq<A.Block>)
    requires before <= after
    ensures OthersKept(before, after, 0, 0)
  {
  }

  lemma Newly(live: seq<A.Block>, p: nat, bytes: nat, place: nat)
    requires place < |live| && live[place].addr == p && live[place].size == bytes
    ensures Knows(live, Owned(p, bytes, true), place)
  {
  }

  /** What an accumulator in order says of its arena and its own block. */
  lemma SharedArena<E(0)>(a: Accumulator<E>)
    requires a.Valid()
    ensures a.arena.Valid() && A.Grounded(a.arena.View()) && (a.acc != 0 ==> a.k < |a.arena.live|)
  {
  }

  ghost predicate Apart<E(0)>(a: Accumulator<E>, b: Accumulator<E>)
    reads a, b
  {
    a != b && a.slots != b.slots && (a.acc == 0 || b.acc == 0 || a.k != b.k)
  }

  /** The block at this place in the arena's list has the address and size its owner knows. */
  ghost predicate Knows(live: seq<A.Block>, o: Owned, place: nat) {
    place < |live| && (o.trimmable ==> live[place].addr == o.addr && live[place].size == o.size)
  }

  lemma KnownIsLive(live: seq<A.Block>, o: Owned, place: nat)
    requires Knows(live, o, place)
    ensures place < |live|
  {
  }

  /** A block that is not the one a step worked on is still what its owner knows. */
  lemma StillKnown(before: seq<A.Block>, after: seq<A.Block>, own: nat, acc: nat, o: Owned, place: nat)
    requires OthersKept(before, after, own, acc) && Knows(before, o, place) && (acc == 0 || place != own)
    ensures Knows(after, o, place)
  {
  }

  /** Nor does the step harm another accumulator. */
  lemma StillInPlace<E>(h: Holding<E>, size: nat, align: nat, before: seq<A.Block>, after: seq<A.Block>, own: nat, acc: nat)
    requires InPlace(h, size, align, before)
    requires OthersKept(before, after, own, acc) && (acc == 0 || h.acc == 0 || h.k != own)
    ensures InPlace(h, size, align, after)
  {
  }

  // ---- room for all that is asked ------------------------------------------------------------

  /** The elements used and held after a record, wherever the block is. */
  ghost function Tallied<E>(c: Cell, r: Record<E>, f: Reader<E>): Cell
    requires ReaderOk(f)
  {
    var n, w := c.n + |Elements(r, f)|, Wanted(c, More(r, f), WayOf(r));
    Cell(c.acc, n, if r.Varints? then n else if w > c.cap then w else c.cap)
  }

  ghost function AllTallied<E>(cells: seq<Cell>, es: seq<Event<E>>, readers: seq<Reader<E>>): (r: seq<Cell>)
    requires |cells| == |readers| && forall i :: 0 <= i < |readers| ==> ReaderOk(readers[i])
    ensures |r| == |cells|
  {
    if es == [] then cells else
      var before, e := AllTallied(cells, es[..|es| - 1], readers), es[|es| - 1];
      if e.Arrives? && e.field < |cells| then before[e.field := Tallied(before[e.field], e.record, readers[e.field])] else before
  }

  /** The bytes an event asks of the arena, with what aligning them may skip. */
  ghost function Asked<E>(cells: seq<Cell>, e: Event<E>, readers: seq<Reader<E>>, dims: seq<Dim>): nat
    requires |cells| == |readers| == |dims| && forall i :: 0 <= i < |readers| ==> ReaderOk(readers[i])
  {
    match e
    case Arrives(i, r) =>
      if i >= |cells| then 0 else
        var w := Wanted(cells[i], More(r, readers[i]), WayOf(r));
        if w <= cells[i].cap then 0 else w * dims[i].size + dims[i].align
    case Allocates(bytes, align) => bytes + align
    case Trims(_, _) => 0
  }

  ghost function AllAsked<E>(cells: seq<Cell>, es: seq<Event<E>>, readers: seq<Reader<E>>, dims: seq<Dim>): nat
    requires |cells| == |readers| == |dims| && forall i :: 0 <= i < |readers| ==> ReaderOk(readers[i])
  {
    if es == [] then 0 else
      AllAsked(cells, es[..|es| - 1], readers, dims)
      + Asked(AllTallied(cells, es[..|es| - 1], readers), es[|es| - 1], readers, dims)
  }

  /** The current chunk has this many bytes left. */
  ghost predicate Left(m: A.Mem, bytes: nat) {
    m.chunks != [] && m.cursor < |m.chunks| && 0 < m.cur && m.cur + bytes <= m.limit && bytes <= SIZE_MAX
  }

  /** The bump pointer has stayed in its chunk and moved by no more than this many bytes. */
  ghost predicate Spent(m: A.Mem, m': A.Mem, bytes: nat) {
    m'.chunks == m.chunks && m'.cursor == m.cursor && m'.limit == m.limit && 0 < m'.cur <= m.cur + bytes
  }

  lemma RoomServes(m: A.Mem, bytes: nat, align: nat, host: Host)
    requires align >= 1 && Left(m, bytes + align)
    ensures var (m', addr) := Request(m, bytes, align, host); addr != 0 && Spent(m, m', bytes + align)
  {
    assert A.HasRoom(m, bytes, align);
  }

  lemma ShrunkSpends(m: A.Mem, ptr: nat, oldBytes: nat, newBytes: nat)
    requires Left(m, 0)
    ensures Spent(m, A.Shrunk(m, ptr, oldBytes, newBytes), 0)
  {
  }

  lemma RecordServed<E>(p: Place, r: Record<E>, f: Reader<E>, dim: Dim, host: Host)
    requires ReaderOk(f) && dim.align >= 1
    requires var w := Wanted(p.cell, More(r, f), WayOf(r));
             Left(p.mem, if w <= p.cell.cap then 0 else w * dim.size + dim.align)
    ensures var w := Wanted(p.cell, More(r, f), WayOf(r));
            var q := Stored(p, r, f, dim, host);
            && q.Some? && SameCounts(q.value.cell, Tallied(p.cell, r, f))
            && Spent(p.mem, q.value.mem, if w <= p.cell.cap then 0 else w * dim.size + dim.align)
  {
    hide Request, A.Shrunk, Elements, More;
    var w := Wanted(p.cell, More(r, f), WayOf(r));
    if w > p.cell.cap {
      RoomServes(p.mem, w * dim.size, dim.align, host);
    }
    var q := Roomy(p, w, dim, host).value;
    ShrunkSpends(q.mem, q.cell.acc, q.cell.cap * dim.size, (q.cell.n + |Elements(r, f)|) * dim.size);
  }

  ghost predicate SameCounts(a: Cell, b: Cell) { a.n == b.n && a.cap == b.cap }

  ghost predicate AllSame(a: seq<Cell>, b: seq<Cell>) {
    |a| == |b| && forall i :: 0 <= i < |a| ==> SameCounts(a[i], b[i])
  }

  lemma EventServed<E>(s: Memory, cells: seq<Cell>, e: Event<E>, readers: seq<Reader<E>>, dims: seq<Dim>, host: Host)
    requires |cells| == |readers| == |dims| && AllSame(s.cells, cells) && Sizable(e)
    requires forall i :: 0 <= i < |readers| ==> ReaderOk(readers[i]) && dims[i].align >= 1
    requires Left(s.mem, Asked(cells, e, readers, dims))
    ensures var after := if e.Arrives? && e.field < |cells| then cells[e.field := Tallied(cells[e.field], e.record, readers[e.field])] else cells;
            var r := Served(s, e, readers, dims, host);
            r.Some? && AllSame(r.value.cells, after) && Spent(s.mem, r.value.mem, Asked(cells, e, readers, dims))
  {
    hide Request, A.Shrunk, Stored, Tallied, Wanted, More;
    match e
    case Arrives(i, r) =>
      if i < |cells| {
        CountsDecide(s.cells[i], cells[i], r, readers[i]);
        RecordServed(Place(s.mem, s.cells[i]), r, readers[i], dims[i], host);
      }
    case Allocates(bytes, align) => RoomServes(s.mem, bytes, align, host);
    case Trims(j, newBytes) =>
      if j < |s.others| {
        ShrunkSpends(s.mem, s.others[j].addr, s.others[j].size, newBytes);
      }
  }

  lemma CountsDecide<E>(a: Cell, b: Cell, r: Record<E>, f: Reader<E>)
    requires ReaderOk(f) && SameCounts(a, b)
    ensures Wanted(a, More(r, f), WayOf(r)) == Wanted(b, More(r, f), WayOf(r))
    ensures SameCounts(Tallied(a, r, f), Tallied(b, r, f))
  {
  }

  /** With room in the current chunk for all that the events ask, every one of them is served there. */
  lemma {:induction false} RoomSuffices<E>(s: Memory, es: seq<Event<E>>, readers: seq<Reader<E>>, dims: seq<Dim>, host: Host)
    requires |s.cells| == |readers| == |dims| && forall k :: 0 <= k < |es| ==> Sizable(es[k])
    requires forall i :: 0 <= i < |readers| ==> ReaderOk(readers[i]) && dims[i].align >= 1
    requires Left(s.mem, AllAsked(s.cells, es, readers, dims))
    ensures var r := AllServed(s, es, readers, dims, host);
            && r.Some? && Spent(s.mem, r.value.mem, AllAsked(s.cells, es, readers, dims))
            && AllSame(r.value.cells, AllTallied(s.cells, es, readers))
    decreases |es|
  {
    hide Served, Asked, Sizable, Tallied;
    if es != [] {
      var n := |es| - 1;
      RoomSuffices(s, es[..n], readers, dims, host);
      var before := AllServed(s, es[..n], readers, dims, host).value;
      EventServed(before, AllTallied(s.cells, es[..n], readers), es[n], readers, dims, host);
    }
  }

  lemma {:induction false} PrefixAsks<E>(cells: seq<Cell>, es: seq<Event<E>>, readers: seq<Reader<E>>, dims: seq<Dim>, k: nat)
    requires |cells| == |readers| == |dims| && k <= |es| && forall i :: 0 <= i < |readers| ==> ReaderOk(readers[i])
    ensures AllAsked(cells, es[..k], readers, dims) <= AllAsked(cells, es, readers, dims)
    decreases |es|
  {
    hide Asked;
    if k < |es| {
      assert es[..|es| - 1][..k] == es[..k];
      PrefixAsks(cells, es[..|es| - 1], readers, dims, k);
    } else {
      assert es[..k] == es;
    }
  }

  /** So when it runs out of memory, there was not that much room. */
  lemma RanOut<E>(s: Memory, es: seq<Event<E>>, readers: seq<Reader<E>>, dims: seq<Dim>, host: Host, k: nat)
    requires |s.cells| == |readers| == |dims| && k < |es| && forall k :: 0 <= k < |es| ==> Sizable(es[k])
    requires forall i :: 0 <= i < |readers| ==> ReaderOk(readers[i]) && dims[i].align >= 1
    requires Exhausted(s, es[..k], es[k], readers, dims, host)
    ensures !Left(s.mem, AllAsked(s.cells, es, readers, dims))
  {
    hide AllAsked, AllServed, AllTallied, AllSame, Spent, Sizable;
    assert es[..k] + [es[k]] == es[..k + 1];
    PrefixAsks(s.cells, es, readers, dims, k + 1);
    if Left(s.mem, AllAsked(s.cells, es, readers, dims)) {
      RoomSuffices(s, es[..k + 1], readers, dims, host);
    }
  }
}
