/** An encoder of typed messages, written from the kinds of the fields, and the round trip through the decoder. */
module Encoding {
  import opened Basics
  import opened Varint
  import opened Groups
  import Spans
  import Words
  import opened M = Merge

  // ---- numbers -------------------------------------------------------------------------------

  function ByteFor(n: nat): bv8
    requires n < 256
  {
    Words.Byte(n)
  }

  /** A number in base 128, its least digit first and all but the last marked as continuing. */
  function Base(n: nat): (s: seq<bv8>)
    ensures s != []
  {
    if n < 128 then [ByteFor(n)] else [ByteFor(n % 128 + 128)] + Base(n / 128)
  }

  lemma ByteForIs(n: nat)
    requires n < 256
    ensures ByteFor(n) as nat == n
  {
    Words.ByteIs(n);
  }

  lemma {:induction false} BaseIsDigits(n: nat, buf: seq<bv8>, p: nat)
    requires Stands(buf, p, Base(n))
    ensures Digits(buf, p, |Base(n)|) == n && EndsAfter(buf, p, |buf|, |Base(n)| - 1)
    decreases n
  {
    hide ByteFor, Digits;
    var s := Base(n);
    assert buf[p] == s[0];
    if n < 128 {
      ByteForIs(n);
      OneDigitIs(buf, p, n);
    } else {
      ByteForIs(n % 128 + 128);
      assert buf[p + 1..p + |s|] == s[1..] == Base(n / 128);
      BaseIsDigits(n / 128, buf, p + 1);
      DigitOver(buf, p, |s| - 1, n);
    }
  }

  lemma OneDigitIs(buf: seq<bv8>, p: nat, n: nat)
    requires p < |buf| && n < 128 && buf[p] as nat == n
    ensures Digits(buf, p, 1) == n && EndsAfter(buf, p, |buf|, 0)
  {
    assert Digits(buf, p + 1, 0) == 0;
  }

  lemma DigitOver(buf: seq<bv8>, p: nat, k: nat, n: nat)
    requires k >= 1 && p + k < |buf| && buf[p] as nat == n % 128 + 128
    requires Digits(buf, p + 1, k) == n / 128 && EndsAfter(buf, p + 1, |buf|, k - 1)
    ensures Digits(buf, p, k + 1) == n && EndsAfter(buf, p, |buf|, k)
  {
    assert buf[p] as nat % 128 == n % 128;
  }

  lemma {:induction false} BaseLength(n: nat, k: nat)
    requires k >= 1 && n < Power128(k)
    ensures |Base(n)| <= k
    decreases k
  {
    if n >= 128 {
      BaseLength(n / 128, k - 1);
    }
  }

  lemma BaseReads(n: nat, buf: seq<bv8>, p: nat)
    requires n < TWO_64 && Stands(buf, p, Base(n))
    ensures var r := VarintAt(buf, p, |buf|);
            r.Done? && r.value as nat == n && r.next == p + |Base(n)|
  {
    hide Base, Digits, VarintAt;
    BaseIsDigits(n, buf, p);
    NinePowers();
    assert Power128(10) == 128 * Power128(9);
    BaseLength(n, 10);
    VarintMeans(buf, p, |buf|);
    var r := VarintAt(buf, p, |buf|);
    EndsOnce(buf, p, |buf|, |Base(n)| - 1, r.next - p - 1);
  }

  lemma EndsOnce(buf: seq<bv8>, p: nat, end: nat, j: nat, k: nat)
    requires end <= |buf| && EndsAfter(buf, p, end, j) && EndsAfter(buf, p, end, k)
    ensures j == k
  {
  }

  // ---- typed writes --------------------------------------------------------------------------

  /** What is written to a field: a number, eight or four bytes, a string, a message by length or as a group, or packed
    * numbers or packed items of a fixed width. */
  datatype Data =
    | Scalar(v: bv64)
    | Eight(bytes: seq<bv8>)
    | Four(bytes: seq<bv8>)
    | Chars(bytes: seq<bv8>)
    | Message(ws: Writes)
    | Grouped(ws: Writes)
    | PackedScalars(vs: seq<bv64>)
    | PackedItems(width: nat, items: seq<seq<bv8>>)

  datatype Writes = Nothing | And(before: Writes, number: nat, data: Data)

  /** The wire type's number in the tag. */
  function Code(d: Data): nat
  {
    match d
    case Scalar(_) => 0
    case Eight(_) => 1
    case Four(_) => 5
    case Grouped(_) => 3
    case _ => 2
  }

  function Joined(items: seq<seq<bv8>>): seq<bv8>
  {
    if items == [] then [] else items[0] + Joined(items[1..])
  }

  /** What stands between the length, or the start tag, and the end of the value. */
  function Content(d: Data): seq<bv8>
    decreases d, 0
  {
    match d
    case Scalar(v) => []
    case Eight(b) => b
    case Four(b) => b
    case Chars(b) => b
    case Message(ws) => Bytes(ws)
    case Grouped(ws) => Bytes(ws)
    case PackedScalars(vs) => Spans.EncodeAll(vs)
    case PackedItems(_, items) => Joined(items)
  }

  /** The value as it follows the tag of field `number`. */
  function Payload(number: nat, d: Data): seq<bv8>
    decreases d, 1
  {
    match d
    case Scalar(v) => Encode(v)
    case Eight(b) => b
    case Four(b) => b
    case Grouped(ws) => Content(d) + Base(number * 8 + 4)
    case _ => Base(|Content(d)|) + Content(d)
  }

  function Bytes(ws: Writes): seq<bv8>
    decreases ws
  {
    match ws
    case Nothing => []
    case And(before, number, d) => Bytes(before) + (Base(number * 8 + Code(d)) + Payload(number, d))
  }

  /** Groups nested inside one another. */
  function Nest(d: Data): nat
    decreases d
  {
    if d.Grouped? then 1 + NestAll(d.ws) else 0
  }

  function NestAll(ws: Writes): nat
    decreases ws
  {
    match ws
    case Nothing => 0
    case And(before, _, d) => if Nest(d) > NestAll(before) then Nest(d) else NestAll(before)
  }

  /** What the format can hold: field numbers below 2^29, lengths below 2^64, whole items, and 100 groups in one another. */
  predicate Sound(d: Data)
    decreases d
  {
    && |Content(d)| < TWO_64 && Nest(d) <= 100
    && match d
       case Eight(b) => |b| == 8
       case Four(b) => |b| == 4
       case Message(ws) => AllSound(ws)
       case Grouped(ws) => AllSound(ws)
       case PackedItems(width, items) => (width == 4 || width == 8) && forall i :: 0 <= i < |items| ==> |items[i]| == width
       case _ => true
  }

  predicate AllSound(ws: Writes)
    decreases ws
  {
    ws.And? ==> 1 <= ws.number < 0x2000_0000 && Sound(ws.data) && AllSound(ws.before)
  }

  // ---- the records they are read as ----------------------------------------------------------

  function WireNumbered(code: nat): WireType
  {
    if code == 0 then WVarint else if code == 1 then I64 else if code == 2 then Len else if code == 3 then SGroup
    else if code == 4 then EGroup else I32
  }

  lemma TagReads(number: nat, code: nat, buf: seq<bv8>, p: nat)
    requires 1 <= number < 0x2000_0000 && code < 6 && Stands(buf, p, Base(number * 8 + code))
    ensures var r := TagAt(buf, p, |buf|);
            && r.Done? && r.next == p + |Base(number * 8 + code)|
            && r.value.field as nat == number && r.value.wire == WireNumbered(code)
  {
    hide TagAt, VarintAt, Base, IsTagOf;
    BaseReads(number * 8 + code, buf, p);
    TagMeans(buf, p, |buf|);
    TagIs(number, code, p + |Base(number * 8 + code)|, TagAt(buf, p, |buf|));
  }

  lemma TagIs(number: nat, code: nat, next: nat, r: Read<Tag>)
    requires 1 <= number < 0x2000_0000 && code < 6 && IsTagOf(number * 8 + code, next, r)
    ensures r.Done? && r.next == next && r.value.field as nat == number && r.value.wire == WireNumbered(code)
  {
    assert (number * 8 + code) / 8 == number && (number * 8 + code) % 8 == code;
  }

  /** The value the record holds. */
  function ValOf(d: Data): Val
  {
    if d.Scalar? then M.Num(d.v) else Blob(Content(d))
  }

  function RecordFor(number: nat, d: Data): Record
  {
    Record(number, WireNumbered(Code(d)), ValOf(d))
  }

  function Records(ws: Writes): seq<Record>
    decreases ws
  {
    match ws
    case Nothing => []
    case And(before, number, d) => Records(before) + [RecordFor(number, d)]
  }

  /** The payload stands at p, and n is its end. */
  predicate Stands(buf: seq<bv8>, p: nat, s: seq<bv8>)
  {
    p + |s| <= |buf| && buf[p..p + |s|] == s
  }

  lemma StandsApart(buf: seq<bv8>, p: nat, a: seq<bv8>, b: seq<bv8>)
    ensures Stands(buf, p, a + b) <==> Stands(buf, p, a) && Stands(buf, p + |a|, b)
  {
    if Stands(buf, p, a + b) {
      assert buf[p..p + |a|] == (a + b)[..|a|] == a;
      assert buf[p + |a|..p + |a| + |b|] == (a + b)[|a|..] == b;
    }
    if Stands(buf, p, a) && Stands(buf, p + |a|, b) {
      assert buf[p..p + |a + b|] == buf[p..p + |a|] + buf[p + |a|..p + |a| + |b|];
    }
  }

  lemma LengthReads(c: seq<bv8>, buf: seq<bv8>, p: nat)
    requires |c| < TWO_64 && Stands(buf, p, Base(|c|) + c)
    ensures var r := VarintAt(buf, p, |buf|);
            && r.Done? && r.value as nat == |c| && r.next == p + |Base(|c|)| && r.next + |c| <= |buf|
            && buf[r.next..r.next + |c|] == c
  {
    hide VarintAt, Base;
    StandsApart(buf, p, Base(|c|), c);
    BaseReads(|c|, buf, p);
  }

  lemma LeafReads(number: nat, d: Data, buf: seq<bv8>, p: nat)
    requires Sound(d) && !d.Grouped? && Stands(buf, p, Payload(number, d))
    ensures LeafAt(buf, p, |buf|, WireNumbered(Code(d))) == Done((), p + |Payload(number, d)|)
  {
    hide VarintAt, Base, Encode, Bytes, Nest;
    match d
    case Scalar(v) => RoundTrip(v, buf, p, |buf|);
    case Eight(_) =>
    case Four(_) =>
    case _ => LengthReads(Content(d), buf, p);
  }

  /** The skipper passes an encoded value to just past it. */
  lemma {:induction false} SkipsData(number: nat, d: Data, buf: seq<bv8>, p: nat, tag: Tag, depth: nat)
    requires 1 <= number < 0x2000_0000 && Sound(d) && Stands(buf, p, Payload(number, d))
    requires tag.field as nat == number && tag.wire == WireNumbered(Code(d)) && depth + Nest(d) <= 100
    ensures SkipSpec(buf, p, |buf|, tag, depth) == Past(p + |Payload(number, d)|)
    decreases d, 1
  {
    hide TagAt, LeafAt, ScanSpec, VarintAt, Base, Bytes, Payload, Stands, Nest, NestAll, Sound, AllSound;
    if d.Grouped? {
      GroupIs(number, d, buf, p, depth);
      ScansWrites(d.ws, buf, p, tag.field, depth + 1);
      GroupCloses(number, buf, p + |Bytes(d.ws)|, tag.field, depth + 1);
    } else {
      LeafReads(number, d, buf, p);
    }
  }

  lemma GroupCloses(number: nat, buf: seq<bv8>, p: nat, field: bv64, depth: nat)
    requires 1 <= number < 0x2000_0000 && field as nat == number && depth <= 100 && Stands(buf, p, Base(number * 8 + 4))
    ensures p <= |buf| && ScanSpec(buf, p, |buf|, field, depth) == Closed(p, p + |Base(number * 8 + 4)|)
  {
    hide TagAt, Base, Stands;
    TagReads(number, 4, buf, p);
    StandsBefore(buf, p, Base(number * 8 + 4));
    var r := TagAt(buf, p, |buf|);
    Words.SameNumber(r.value.field, field);
    ClosesAt(buf, p, field, depth);
  }

  lemma GroupIs(number: nat, d: Data, buf: seq<bv8>, p: nat, depth: nat)
    requires d.Grouped? && Sound(d) && Stands(buf, p, Payload(number, d)) && depth + Nest(d) <= 100
    ensures AllSound(d.ws) && depth + 1 + NestAll(d.ws) <= 100 && depth + 1 <= 100
    ensures p + |Bytes(d.ws)| <= |buf| && buf[p..p + |Bytes(d.ws)|] == Bytes(d.ws)
    ensures Stands(buf, p, Bytes(d.ws)) && Stands(buf, p + |Bytes(d.ws)|, Base(number * 8 + 4))
    ensures |Payload(number, d)| == |Bytes(d.ws)| + |Base(number * 8 + 4)|
  {
    hide Base, Bytes;
    StandsApart(buf, p, Bytes(d.ws), Base(number * 8 + 4));
  }

  lemma ClosesAt(buf: seq<bv8>, p: nat, field: bv64, depth: nat)
    requires p < |buf| && depth <= 100
    requires TagAt(buf, p, |buf|).Done? && TagAt(buf, p, |buf|).value == Tag(field, EGroup)
    ensures ScanSpec(buf, p, |buf|, field, depth) == Closed(p, TagAt(buf, p, |buf|).next)
  {
    hide TagAt;
  }

  /** The last write: where it stands, and the tag read there. */
  lemma LastWrite(ws: Writes, buf: seq<bv8>, p: nat)
    requires ws.And? && AllSound(ws) && Stands(buf, p, Bytes(ws))
    ensures Sound(ws.data) && AllSound(ws.before) && 1 <= ws.number < 0x2000_0000
    ensures Stands(buf, p, Bytes(ws.before)) && p + |Bytes(ws.before)| < |buf|
    ensures var q := p + |Bytes(ws.before)|;
            var r := TagAt(buf, q, |buf|);
            && r.Done? && r.value.field as nat == ws.number && r.value.wire == WireNumbered(Code(ws.data))
            && Stands(buf, r.next, Payload(ws.number, ws.data))
            && p + |Bytes(ws)| == r.next + |Payload(ws.number, ws.data)|
  {
    hide TagAt, Base, Payload, Content, Nest, Sound, Stands, WireNumbered;
    var t, s := Base(ws.number * 8 + Code(ws.data)), Payload(ws.number, ws.data);
    var q := p + |Bytes(ws.before)|;
    assert Bytes(ws) == Bytes(ws.before) + (t + s);
    hide Bytes;
    StandsApart(buf, p, Bytes(ws.before), t + s);
    StandsApart(buf, q, t, s);
    TagReads(ws.number, Code(ws.data), buf, q);
    StandsBefore(buf, q, t);
  }

  lemma StandsBefore(buf: seq<bv8>, p: nat, s: seq<bv8>)
    requires s != [] && Stands(buf, p, s)
    ensures p < |buf|
  {
  }

  /** And encoded writes inside a group. */
  lemma {:induction false} ScansWrites(ws: Writes, buf: seq<bv8>, p: nat, field: bv64, depth: nat)
    requires AllSound(ws) && Stands(buf, p, Bytes(ws)) && depth + NestAll(ws) <= 100
    ensures ScanSpec(buf, p, |buf|, field, depth) == ScanSpec(buf, p + |Bytes(ws)|, |buf|, field, depth)
    decreases ws
  {
    hide TagAt, Payload, SkipSpec, ScanSpec, AllSound, Sound, Stands;
    if ws.And? {
      hide Bytes;
      LastWrite(ws, buf, p);
      ScansWrites(ws.before, buf, p, field, depth);
      var q := p + |Bytes(ws.before)|;
      var r := TagAt(buf, q, |buf|);
      SkipsData(ws.number, ws.data, buf, r.next, r.value, depth);
      ScanStep(buf, q, field, depth, r.next + |Payload(ws.number, ws.data)|);
    } else {
      assert Bytes(ws) == [];
      StandsIn(buf, p, Bytes(ws));
    }
  }

  lemma StandsIn(buf: seq<bv8>, p: nat, s: seq<bv8>)
    requires Stands(buf, p, s)
    ensures p + |s| <= |buf|
  {
  }

  /** A record that does not end the group is passed. */
  lemma ScanStep(buf: seq<bv8>, p: nat, field: bv64, depth: nat, after: nat)
    requires p < |buf| && depth <= 100 && TagAt(buf, p, |buf|).Done? && TagAt(buf, p, |buf|).value.wire != EGroup
    requires SkipSpec(buf, TagAt(buf, p, |buf|).next, |buf|, TagAt(buf, p, |buf|).value, depth) == Past(after)
    ensures after <= |buf| && ScanSpec(buf, p, |buf|, field, depth) == ScanSpec(buf, after, |buf|, field, depth)
  {
    hide TagAt, SkipSpec;
  }

  lemma GroupReads(number: nat, d: Data, buf: seq<bv8>, p: nat, tag: Tag)
    requires 1 <= number < 0x2000_0000 && Sound(d) && d.Grouped? && Stands(buf, p, Payload(number, d))
    requires tag.field as nat == number
    ensures p <= |buf| && ScanSpec(buf, p, |buf|, tag.field, 1) == Closed(p + |Bytes(d.ws)|, p + |Payload(number, d)|)
    ensures p + |Bytes(d.ws)| <= |buf| && buf[p..p + |Bytes(d.ws)|] == Bytes(d.ws)
  {
    hide TagAt, ScanSpec, VarintAt, Base, Bytes, Payload, Nest, NestAll, Sound, AllSound, Stands;
    SoundNests(d);
    GroupIs(number, d, buf, p, 0);
    ScansWrites(d.ws, buf, p, tag.field, 1);
    GroupCloses(number, buf, p + |Bytes(d.ws)|, tag.field, 1);
  }

  lemma SoundNests(d: Data)
    requires Sound(d)
    ensures Nest(d) <= 100
  {
  }

  lemma LengthValue(c: seq<bv8>, buf: seq<bv8>, p: nat, tag: Tag)
    requires |c| < TWO_64 && Stands(buf, p, Base(|c|) + c) && tag.wire == Len
    ensures p <= |buf| && ValueAt(buf, p, tag) == Done(Blob(c), p + |Base(|c|) + c|)
  {
    hide VarintAt, Base;
    LengthReads(c, buf, p);
  }

  /** The decoder reads an encoded value back. */
  lemma ValueReads(number: nat, d: Data, buf: seq<bv8>, p: nat, tag: Tag)
    requires 1 <= number < 0x2000_0000 && Sound(d) && Stands(buf, p, Payload(number, d))
    requires tag.field as nat == number && tag.wire == WireNumbered(Code(d))
    ensures p <= |buf| && ValueAt(buf, p, tag) == Done(ValOf(d), p + |Payload(number, d)|)
  {
    hide ScanSpec, VarintAt, Base, Encode, Bytes, Nest;
    match d
    case Scalar(v) => RoundTrip(v, buf, p, |buf|);
    case Eight(_) =>
    case Four(_) =>
    case Grouped(_) => GroupReads(number, d, buf, p, tag);
    case _ => LengthValue(Content(d), buf, p, tag);
  }

  /** The decoder reads the writes as their records, in order. */
  lemma {:induction false} GathersAll(ws: Writes, body: seq<bv8>)
    requires AllSound(ws) && Stands(body, 0, Bytes(ws))
    ensures |Bytes(ws)| <= |body| && Weight(Records(ws)) <= |Bytes(ws)|
    ensures Gather(body, 0, []) == Gather(body, |Bytes(ws)|, Records(ws))
    decreases ws
  {
    hide TagAt, ValueAt, Payload, AllSound, Sound, Stands, Content, Gather, WireNumbered, Weight, Base;
    StandsIn(body, 0, Bytes(ws));
    if ws.And? {
      LastWrite(ws, body, 0);
      GathersAll(ws.before, body);
      var q := |Bytes(ws.before)|;
      var r := TagAt(body, q, |body|);
      ValueReads(ws.number, ws.data, body, r.next, r.value);
      GatherStep(body, q, Records(ws.before), r.value, r.next);
    } else {
      assert Bytes(ws) == [] && Records(ws) == [];
      NoWeight();
    }
  }

  lemma NoWeight()
    ensures Weight([]) == 0
  {
  }

  lemma GathersWhole(ws: Writes)
    requires AllSound(ws)
    ensures Gather(Bytes(ws), 0, []) == Some(Records(ws)) && Weight(Records(ws)) <= |Bytes(ws)|
  {
    hide Bytes, Records, AllSound;
    assert Bytes(ws)[0..0 + |Bytes(ws)|] == Bytes(ws);
    GathersAll(ws, Bytes(ws));
  }

  // ---- which writes a message takes, and what they come to -----------------------------------

  function KindCode(k: Kind): nat
  {
    match k
    case Base128Kind => 0
    case Fixed64 => 1
    case Text => 2
    case Sub(_, delimited) => if delimited then 3 else 2
    case Fixed32 => 5
  }

  /** The wire types a field is read in: its kind's, and for repeated numbers and fixed-width items the packed one. */
  function Codes(f: Field): set<nat>
  {
    match f
    case Single(k, _) => {KindCode(k)}
    case Member(_, k) => {KindCode(k)}
    case Repeated(k) => if KindCode(k) in {0, 1, 5} then {KindCode(k), 2} else {KindCode(k)}
    case MapOf(_, _) => {2}
  }

  /** The write is of no field, or in a wire type its field is not read in. */
  predicate Strange(desc: Desc, number: nat, d: Data)
  {
    number !in desc || Code(d) !in Codes(desc[number])
  }

  predicate OfKind(schema: Schema, k: Kind, d: Data)
    decreases d, 1
  {
    match k
    case Base128Kind => d.Scalar?
    case Fixed64 => d.Eight?
    case Fixed32 => d.Four?
    case Text => d.Chars?
    case Sub(t, delimited) => (if delimited then d.Grouped? else d.Message?) && Typed(schema, DescOf(schema, t), d.ws)
  }

  /** A map entry: the key as field 1, then the value as field 2. */
  predicate IsPair(schema: Schema, key: Kind, value: Kind, ws: Writes)
    decreases ws
  {
    && ws.And? && ws.before.And? && ws.before.before.Nothing?
    && ws.before.number == 1 && OfKind(schema, key, ws.before.data)
    && ws.number == 2 && OfKind(schema, value, ws.data)
  }

  predicate Belongs(schema: Schema, f: Field, d: Data)
    decreases d, 2
  {
    match f
    case Single(k, _) => OfKind(schema, k, d)
    case Member(_, k) => OfKind(schema, k, d)
    case Repeated(k) =>
      || OfKind(schema, k, d)
      || (k.Base128Kind? && d.PackedScalars?)
      || (k.Fixed64? && d.PackedItems? && d.width == 8)
      || (k.Fixed32? && d.PackedItems? && d.width == 4)
    case MapOf(key, value) => d.Message? && IsPair(schema, key, value, d.ws)
  }

  /** Every write is of its field's kind, or strange to the message. */
  predicate Typed(schema: Schema, desc: Desc, ws: Writes)
    decreases ws
  {
    ws.And? ==>
      && Typed(schema, desc, ws.before)
      && (Strange(desc, ws.number, ws.data) || Belongs(schema, desc[ws.number], ws.data))
  }

  ghost function ValueOf(schema: Schema, k: Kind, d: Data): Value
    decreases d, 1
  {
    match d
    case Scalar(v) => Simple(M.Num(v))
    case Eight(b) => Simple(Blob(b))
    case Four(b) => Simple(Blob(b))
    case Chars(b) => Simple(Blob(b))
    case Message(ws) => if k.Sub? then Tree(schema, DescOf(schema, k.target), ws) else Unreadable
    case Grouped(ws) => if k.Sub? then Tree(schema, DescOf(schema, k.target), ws) else Unreadable
    case PackedScalars(_) => Unreadable
    case PackedItems(_, _) => Unreadable
  }

  ghost function ElemsOf(schema: Schema, f: Field, d: Data): seq<Value>
    decreases d, 2
  {
    if d.PackedScalars? then seq(|d.vs|, i requires 0 <= i < |d.vs| => Simple(M.Num(d.vs[i])))
    else if d.PackedItems? then seq(|d.items|, i requires 0 <= i < |d.items| => Simple(Blob(d.items[i])))
    else if f.Repeated? then [ValueOf(schema, f.kind, d)]
    else if f.MapOf? && d.Message? && d.ws.And? && d.ws.before.And? then
      [Msg(map[1 := One(ValueOf(schema, f.key, d.ws.before.data)), 2 := One(ValueOf(schema, f.entry, d.ws.data))], map[])]
    else []
  }

  function Unions(desc: Desc): set<nat> { set n | n in desc && desc[n].Member? :: desc[n].oneof }

  /** The message the writes come to: of a singular field the last, of a oneof the last of any member, of the others all in
    * order; strange ones leave no trace. */
  ghost function Tree(schema: Schema, desc: Desc, ws: Writes): (r: Value)
    ensures r.Msg?
    decreases ws
  {
    match ws
    case Nothing =>
      Msg(map n | n in desc && !desc[n].Member? :: if desc[n].Single? then Absent else Many([]),
          map o | o in Unions(desc) :: Empty)
    case And(before, n, d) =>
      var t := Tree(schema, desc, before);
      if Strange(desc, n, d) then t
      else
        match desc[n]
        case Single(k, _) => Msg(t.fields[n := One(ValueOf(schema, k, d))], t.oneofs)
        case Member(o, k) => Msg(t.fields, t.oneofs[o := M.Holds(n, ValueOf(schema, k, d))])
        case _ =>
          var values := if n in t.fields && t.fields[n].Many? then t.fields[n].values else [];
          Msg(t.fields[n := Many(values + ElemsOf(schema, desc[n], d))], t.oneofs)
  }

  predicate Written(desc: Desc, ws: Writes, n: nat)
  {
    ws.And? && (Written(desc, ws.before, n) || (ws.number == n && !Strange(desc, n, ws.data)))
  }

  /** The member of the oneof that was written last. */
  function Holding(desc: Desc, ws: Writes, o: nat): Option<nat>
  {
    if ws.Nothing? then None
    else if !Strange(desc, ws.number, ws.data) && desc[ws.number].Member? && desc[ws.number].oneof == o then Some(ws.number)
    else Holding(desc, ws.before, o)
  }

  /** A message is written to a field that has one already. */
  predicate Again(desc: Desc, ws: Writes, n: nat)
    requires n in desc
  {
    match desc[n]
    case Single(k, _) => k.Sub? && Written(desc, ws, n)
    case Member(o, k) => k.Sub? && Holding(desc, ws, o) == Some(n)
    case _ => false
  }

  ghost predicate FineKind(schema: Schema, k: Kind, d: Data, depth: nat)
    decreases d, 1
  {
    k.Sub? && (d.Message? || d.Grouped?) ==> depth < 100 && Fine(schema, DescOf(schema, k.target), d.ws, depth + 1)
  }

  ghost predicate FineData(schema: Schema, f: Field, d: Data, depth: nat)
    decreases d, 2
  {
    match f
    case Single(k, _) => FineKind(schema, k, d, depth)
    case Member(_, k) => FineKind(schema, k, d, depth)
    case Repeated(k) => FineKind(schema, k, d, depth)
    case MapOf(key, value) =>
      d.Message? && d.ws.And? && d.ws.before.And? ==>
        FineKind(schema, key, d.ws.before.data, depth) && FineKind(schema, value, d.ws.data, depth)
  }

  ghost predicate FineWrites(schema: Schema, desc: Desc, ws: Writes, depth: nat)
    decreases ws, 0
  {
    ws.And? ==>
      && FineWrites(schema, desc, ws.before, depth)
      && (Strange(desc, ws.number, ws.data)
          || (FineData(schema, desc[ws.number], ws.data, depth) && !Again(desc, ws.before, ws.number)))
  }

  /** No message is written over another, none is more than 100 deep, and every required field is written. */
  ghost predicate Fine(schema: Schema, desc: Desc, ws: Writes, depth: nat)
    decreases ws, 1
  {
    && FineWrites(schema, desc, ws, depth)
    && forall n :: n in desc && desc[n].Single? && desc[n].required.Some? ==> Written(desc, ws, n)
  }

  // ---- the decoder agrees --------------------------------------------------------------------

  lemma HitIsKnown(desc: Desc, n: nat, number: nat, d: Data)
    ensures Hit(desc, n, RecordFor(number, d)) <==> number == n && !Strange(desc, number, d)
  {
  }

  lemma {:induction false} OccursIsWritten(desc: Desc, n: nat, ws: Writes)
    ensures Occurs(desc, n, Records(ws)) <==> Written(desc, ws, n)
    decreases ws
  {
    hide Hit, Strange, RecordFor;
    if ws.And? {
      OccursIsWritten(desc, n, ws.before);
      HitIsKnown(desc, n, ws.number, ws.data);
      OccursGrows(desc, n, Records(ws.before), RecordFor(ws.number, ws.data));
    }
  }

  lemma {:induction false} HolderIsHolding(desc: Desc, o: nat, ws: Writes)
    ensures var h := Holder(desc, o, Records(ws));
            Holding(desc, ws, o) == if h.Some? then Some(h.value.number) else None
    decreases ws
  {
    hide Hit, Strange;
    if ws.And? {
      HolderIsHolding(desc, o, ws.before);
      HitIsKnown(desc, ws.number, ws.number, ws.data);
      var r := RecordFor(ws.number, ws.data);
      assert (Records(ws.before) + [r])[..|Records(ws.before)|] == Records(ws.before);
    }
  }

  lemma RepeatsIsAgain(desc: Desc, n: nat, ws: Writes)
    requires n in desc
    ensures Repeats(desc, n, Records(ws)) <==> Again(desc, ws, n)
  {
    hide Occurs, Written, Holder, Holding;
    OccursIsWritten(desc, n, ws);
    if desc[n].Member? {
      HolderIsHolding(desc, desc[n].oneof, ws);
    }
  }

  // ---- one more write ------------------------------------------------------------------------

  /** The kind of a field that is not a map is agreed on, element by element. */
  lemma PackedReads(schema: Schema, f: Field, number: nat, d: Data)
    requires f.Repeated? && Sound(d) && Belongs(schema, f, d) && (d.PackedScalars? || d.PackedItems?)
    ensures var r := RecordFor(number, d);
            && r.wire != WireFor(f.kind) && PackedVals(f.kind, BytesOf(r.val)).Some?
            && RefElems(schema, f, r) == ElemsOf(schema, f, d)
  {
    hide Nest;
    if d.PackedScalars? {
      Spans.DecodeEncoded(d.vs);
    } else {
      ItemsSplit(d.width, d.items);
    }
  }

  lemma {:induction false} ItemsSplit(width: nat, items: seq<seq<bv8>>)
    requires width == 4 || width == 8
    requires forall i :: 0 <= i < |items| ==> |items[i]| == width
    ensures |Joined(items)| % width == 0
    ensures Spans.FixedElements(Joined(items), width, AsBlob) == seq(|items|, i requires 0 <= i < |items| => Blob(items[i]))
    decreases items
  {
    hide Spans.FixedElements;
    if items == [] {
      Spans.FixedDone([], width, AsBlob);
    } else {
      var all, rest := Joined(items), Joined(items[1..]);
      ItemsSplit(width, items[1..]);
      assert all[0..] == all && all[0..0 + width] == items[0] && all[0 + width..] == rest;
      Spans.FixedNext(all, 0, width, AsBlob);
      OneMore(|rest|, width);
    }
  }

  lemma OneMore(n: nat, width: nat)
    requires (width == 4 || width == 8) && n % width == 0
    ensures (width + n) % width == 0
  {
    if width == 4 {
      assert (4 + n) % 4 == 0;
    } else {
      assert (8 + n) % 8 == 0;
    }
  }

  /** What decoding a body of writes comes to: acceptance both ways, and the tree. */
  ghost predicate Agrees(schema: Schema, desc: Desc, ws: Writes, depth: nat)
  {
    && (Accepts(schema, desc, Bytes(ws), depth) <==> Fine(schema, desc, ws, depth))
    && (Fine(schema, desc, ws, depth) ==> Ref(schema, desc, Bytes(ws)) == Tree(schema, desc, ws))
  }

  /** The same of one value of a kind. */
  ghost predicate KindAgrees(schema: Schema, k: Kind, d: Data, depth: nat)
  {
    && (ValueOk(schema, k, ValOf(d), depth) <==> FineKind(schema, k, d, depth))
    && (FineKind(schema, k, d, depth) ==> RefValue(schema, k, ValOf(d)) == ValueOf(schema, k, d))
  }

  /** And of what a field takes. */
  ghost predicate FieldAgrees(schema: Schema, desc: Desc, number: nat, d: Data, depth: nat)
    requires number in desc
  {
    var f, r := desc[number], RecordFor(number, d);
    && (RecordOk(schema, desc, r, depth) <==> FineData(schema, f, d, depth))
    && (FineData(schema, f, d, depth) ==>
          match f
          case Single(k, _) => RefValue(schema, k, r.val) == ValueOf(schema, k, d)
          case Member(_, k) => RefValue(schema, k, r.val) == ValueOf(schema, k, d)
          case _ => RefElems(schema, f, r) == ElemsOf(schema, f, d))
  }

  lemma {:induction false} KindMeans(schema: Schema, k: Kind, d: Data, depth: nat)
    requires Sound(d) && OfKind(schema, k, d)
    ensures KindAgrees(schema, k, d, depth)
    decreases d, 1
  {
    hide Accepts, Fine, Ref, Tree, Nest, Bytes;
    match k
    case Sub(t, _) =>
      if depth < 100 {
        BodyMeans(schema, DescOf(schema, t), d.ws, depth + 1);
      }
    case _ =>
  }

  /** A map entry's body. */
  lemma {:induction false} PairMeans(schema: Schema, key: Kind, entry: Kind, d: Data, depth: nat)
    requires Sound(d) && d.Message? && IsPair(schema, key, entry, d.ws)
    ensures Accepts(schema, EntryDesc(key, entry), Bytes(d.ws), depth)
        <==> FineKind(schema, key, d.ws.before.data, depth) && FineKind(schema, entry, d.ws.data, depth)
    ensures Accepts(schema, EntryDesc(key, entry), Bytes(d.ws), depth) ==>
              [Ref(schema, EntryDesc(key, entry), Bytes(d.ws))] == ElemsOf(schema, MapOf(key, entry), d)
    decreases d, 1
  {
    hide Accepts, Ref, Nest, Bytes, Tree, Fine, FineKind, OfKind;
    PairTyped(schema, key, entry, d.ws);
    BodyMeans(schema, EntryDesc(key, entry), d.ws, depth);
    PairFine(schema, key, entry, d.ws, depth);
    PairTree(schema, key, entry, d.ws);
  }

  lemma PairFields(schema: Schema, key: Kind, entry: Kind, ws: Writes)
    requires IsPair(schema, key, entry, ws)
    ensures var desc := EntryDesc(key, entry);
            && 1 in desc && desc[1] == Single(key, None) && 2 in desc && desc[2] == Single(entry, None)
            && !Strange(desc, 1, ws.before.data) && !Strange(desc, 2, ws.data) && Unions(desc) == {}
  {
    hide OfKind;
    CodeOfKind(schema, key, ws.before.data);
    CodeOfKind(schema, entry, ws.data);
  }

  lemma PairTyped(schema: Schema, key: Kind, entry: Kind, ws: Writes)
    requires IsPair(schema, key, entry, ws)
    ensures Typed(schema, EntryDesc(key, entry), ws)
  {
    hide OfKind, Strange, EntryDesc;
    PairFields(schema, key, entry, ws);
    assert Typed(schema, EntryDesc(key, entry), ws.before.before);
    assert Typed(schema, EntryDesc(key, entry), ws.before);
  }

  lemma CodeOfKind(schema: Schema, k: Kind, d: Data)
    requires OfKind(schema, k, d)
    ensures Code(d) == KindCode(k)
  {
    hide Typed;
  }

  lemma PairFine(schema: Schema, key: Kind, entry: Kind, ws: Writes, depth: nat)
    requires IsPair(schema, key, entry, ws)
    ensures Fine(schema, EntryDesc(key, entry), ws, depth)
        <==> FineKind(schema, key, ws.before.data, depth) && FineKind(schema, entry, ws.data, depth)
  {
    hide OfKind, FineKind, Strange, EntryDesc;
    PairFields(schema, key, entry, ws);
    var desc := EntryDesc(key, entry);
    assert FineWrites(schema, desc, ws.before.before, depth);
    assert !Written(desc, ws.before.before, 1) && !Written(desc, ws.before, 2);
    assert FineWrites(schema, desc, ws.before, depth) <==> FineKind(schema, key, ws.before.data, depth);
    assert FineWrites(schema, desc, ws, depth)
      <==> FineKind(schema, key, ws.before.data, depth) && FineKind(schema, entry, ws.data, depth);
    forall n | n in desc ensures desc[n].Single? ==> desc[n].required.None? {
      OnlyTwo(key, entry, n);
    }
  }

  lemma OnlyTwo(key: Kind, entry: Kind, n: nat)
    ensures n in EntryDesc(key, entry) ==> n == 1 || n == 2
  {
  }

  lemma PairTree(schema: Schema, key: Kind, entry: Kind, ws: Writes)
    requires IsPair(schema, key, entry, ws)
    ensures Tree(schema, EntryDesc(key, entry), ws)
         == Msg(map[1 := One(ValueOf(schema, key, ws.before.data)), 2 := One(ValueOf(schema, entry, ws.data))], map[])
  {
    hide OfKind, ValueOf, Strange;
    PairFields(schema, key, entry, ws);
    var desc := EntryDesc(key, entry);
    var start := Tree(schema, desc, ws.before.before);
    assert start == Msg(map[1 := Absent, 2 := Absent], map[]);
    hide EntryDesc;
    var first := Tree(schema, desc, ws.before);
    assert first == Msg(start.fields[1 := One(ValueOf(schema, key, ws.before.data))], start.oneofs);
    var both := Tree(schema, desc, ws);
    assert both == Msg(first.fields[2 := One(ValueOf(schema, entry, ws.data))], first.oneofs);
  }

  /** A record that belongs to a field. */
  lemma {:induction false} FieldMeans(schema: Schema, desc: Desc, number: nat, d: Data, depth: nat)
    requires !Strange(desc, number, d) && Sound(d) && Belongs(schema, desc[number], d)
    ensures FieldAgrees(schema, desc, number, d, depth)
    decreases d, 2
  {
    hide Accepts, Ref, Nest, Bytes, Tree, Fine, Typed, Strange, Takes, ValueOf;
    HitIsKnown(desc, number, number, d);
    match desc[number]
    case Single(k, _) => KindMeans(schema, k, d, depth);
    case Member(_, k) => KindMeans(schema, k, d, depth);
    case Repeated(k) =>
      if OfKind(schema, k, d) {
        KindMeans(schema, k, d, depth);
        KindIsWire(schema, k, d);
      } else {
        PackedReads(schema, desc[number], number, d);
        assert RecordOk(schema, desc, RecordFor(number, d), depth);
        assert FineKind(schema, k, d, depth);
        assert FineData(schema, desc[number], d, depth);
        assert RefElems(schema, desc[number], RecordFor(number, d)) == ElemsOf(schema, desc[number], d);
      }
    case MapOf(key, entry) => PairMeans(schema, key, entry, d, depth);
  }

  lemma KindIsWire(schema: Schema, k: Kind, d: Data)
    requires OfKind(schema, k, d)
    ensures WireNumbered(Code(d)) == WireFor(k) && !d.PackedScalars? && !d.PackedItems?
  {
    hide Typed;
  }

  /** A body of writes is accepted exactly when the writes are fine, and decodes to what they come to. */
  lemma {:induction false} BodyMeans(schema: Schema, desc: Desc, ws: Writes, depth: nat)
    requires AllSound(ws) && Typed(schema, desc, ws)
    ensures Agrees(schema, desc, ws, depth)
    decreases ws, 1
  {
    hide RefMsg, Tree, FineWrites, NoMerge, AllOk, Bytes, Occurs, Written, Records, AllSound, Typed;
    GathersWhole(ws);
    WritesMean(schema, desc, ws, depth, |Bytes(ws)|);
    forall n ensures Occurs(desc, n, Records(ws)) <==> Written(desc, ws, n) {
      OccursIsWritten(desc, n, ws);
    }
  }

  /** The writes so far, as the records they are read as. */
  lemma {:induction false} WritesMean(schema: Schema, desc: Desc, ws: Writes, depth: nat, limit: nat)
    requires AllSound(ws) && Typed(schema, desc, ws) && Weight(Records(ws)) <= limit
    ensures NoMerge(desc, Records(ws)) && AllOk(schema, desc, Records(ws), depth, limit) <==> FineWrites(schema, desc, ws, depth)
    ensures FineWrites(schema, desc, ws, depth) ==> RefMsg(schema, desc, Records(ws), limit) == Tree(schema, desc, ws)
    decreases ws, 0
  {
    if ws.Nothing? {
      EmptyTree(schema, desc, limit);
    } else {
      var rs, r := Records(ws.before), RecordFor(ws.number, ws.data);
      assert Records(ws) == rs + [r];
      WeightGrows(rs, r);
      hide RefMsg, Tree, NoMerge, AllOk, Records, Sound, FineData, RecordOk, Hit, Strange, Belongs, Again, Repeats, Weight;
      WritesMean(schema, desc, ws.before, depth, limit);
      if FineWrites(schema, desc, ws.before, depth) {
        NoMergeGrows(desc, rs, r);
        AllOkGrows(schema, desc, rs, r, depth, limit);
        HitIsKnown(desc, ws.number, ws.number, ws.data);
        if Strange(desc, ws.number, ws.data) {
          SkippedIsOk(schema, desc, r, depth);
          SkipStep(schema, desc, rs, r, limit);
          StrangeTree(schema, desc, ws);
        } else {
          KnownIsField(desc, ws.number, ws.data);
          RepeatsIsAgain(desc, ws.number, ws.before);
          FieldMeans(schema, desc, ws.number, ws.data, depth);
          FieldStep(schema, desc, ws, depth, limit);
        }
      } else {
        PrefixFails(schema, desc, rs, r, depth, limit);
      }
    }
  }

  lemma KnownIsField(desc: Desc, number: nat, d: Data)
    requires !Strange(desc, number, d)
    ensures number in desc
  {
  }

  lemma WeightGrows(rs: seq<Record>, r: Record)
    ensures Weight(rs) <= Weight(rs + [r])
  {
    assert (rs + [r])[..|rs|] == rs;
  }

  lemma StrangeTree(schema: Schema, desc: Desc, ws: Writes)
    requires ws.And? && Strange(desc, ws.number, ws.data)
    ensures Tree(schema, desc, ws) == Tree(schema, desc, ws.before)
  {
  }

  lemma EmptyTree(schema: Schema, desc: Desc, limit: nat)
    ensures RefMsg(schema, desc, [], limit) == Tree(schema, desc, Nothing)
  {
    StartIs(schema, desc, limit);
    assert Plain(desc) == set n | n in desc && !desc[n].Member?;
    assert Oneofs(desc) == Unions(desc);
  }

  lemma PrefixFails(schema: Schema, desc: Desc, rs: seq<Record>, r: Record, depth: nat, limit: nat)
    requires Weight(rs) <= limit && Weight(rs + [r]) <= limit
    requires !NoMerge(desc, rs) || !AllOk(schema, desc, rs, depth, limit)
    ensures !NoMerge(desc, rs + [r]) || !AllOk(schema, desc, rs + [r], depth, limit)
  {
    hide NoMerge, AllOk;
    if NoMerge(desc, rs + [r]) && AllOk(schema, desc, rs + [r], depth, limit) {
      NoMergePrefix(desc, rs, rs + [r]);
      AllOkPrefix(schema, desc, rs, rs + [r], depth, limit);
    }
  }

  /** A write of a field changes the tree as its record changes the message. */
  lemma FieldStep(schema: Schema, desc: Desc, ws: Writes, depth: nat, limit: nat)
    requires ws.And? && !Strange(desc, ws.number, ws.data)
    requires Weight(Records(ws.before)) <= limit && Weight(Records(ws)) <= limit
    requires FieldAgrees(schema, desc, ws.number, ws.data, depth)
    requires RefMsg(schema, desc, Records(ws.before), limit) == Tree(schema, desc, ws.before)
    ensures !Repeats(desc, ws.number, Records(ws.before)) && FineData(schema, desc[ws.number], ws.data, depth) ==>
              RefMsg(schema, desc, Records(ws), limit) == Tree(schema, desc, ws)
  {
    var rs, r, n := Records(ws.before), RecordFor(ws.number, ws.data), ws.number;
    assert Records(ws) == rs + [r];
    HitIsKnown(desc, n, n, ws.data);
    hide Records, Weight, RecordOk, Hit, Strange, Repeats, RefSlot, RefHeld, FineData, RefValue, RefElems, ValueOf, ElemsOf;
    if !Repeats(desc, n, rs) && FineData(schema, desc[n], ws.data, depth) {
      if desc[n].Member? {
        MemberStep(schema, desc, rs, r, limit);
        MemberHeld(schema, desc, rs, r, limit);
      } else {
        PlainStep(schema, desc, rs, r, limit);
        if desc[n].Single? {
          SingleSlot(schema, desc, rs, r, limit);
        } else {
          ManySlot(schema, desc, rs, r, limit);
          SlotIn(schema, desc, rs, n, limit);
        }
      }
    }
  }

  lemma SlotIn(schema: Schema, desc: Desc, rs: seq<Record>, n: nat, limit: nat)
    requires n in desc && !desc[n].Member? && Weight(rs) <= limit
    ensures var t := RefMsg(schema, desc, rs, limit);
            t.Msg? && n in t.fields && t.fields[n] == RefSlot(schema, desc, n, rs, limit)
  {
    hide RefSlot, RefHeld;
    assert n in Plain(desc);
  }

  /** Decoding the encoding of a typed message gives the message back, unless a message in it is written over another, lies
    * more than 100 deep, lacks a required field, or the whole is too long. */
  method DecodeEncoded(schema: Schema, target: nat, ws: Writes) returns (r: Parsed<Value>)
    requires AllSound(ws) && Typed(schema, DescOf(schema, target), ws)
    ensures r.Accepted? <==> |Bytes(ws)| <= 0xFFFF_FFFF && Fine(schema, DescOf(schema, target), ws, 0)
    ensures r.Accepted? ==> r.value == Tree(schema, DescOf(schema, target), ws)
  {
    hide Accepts, Ref, Fine, Tree, Bytes, Typed, AllSound, BodyFault;
    BodyMeans(schema, DescOf(schema, target), ws, 0);
    r := Decode(schema, target, Bytes(ws));
  }

  // ---- packed and one by one -----------------------------------------------------------------

  /** The elements of a packed write, as writes of their own. */
  function ItemsOf(d: Data): seq<Data>
    requires d.PackedScalars? || d.PackedItems?
  {
    if d.PackedScalars? then seq(|d.vs|, i requires 0 <= i < |d.vs| => Scalar(d.vs[i]))
    else seq(|d.items|, i requires 0 <= i < |d.items| => if d.width == 8 then Eight(d.items[i]) else Four(d.items[i]))
  }

  function Each(ws: Writes, n: nat, items: seq<Data>): Writes
  {
    if items == [] then ws else And(Each(ws, n, items[..|items| - 1]), n, items[|items| - 1])
  }

  function Followed(ws: Writes, more: Writes): Writes
  {
    if more.Nothing? then ws else And(Followed(ws, more.before), more.number, more.data)
  }

  /** Nothing that comes after can tell the two apart. */
  ghost predicate Same(schema: Schema, desc: Desc, a: Writes, b: Writes, depth: nat)
  {
    && Tree(schema, desc, a) == Tree(schema, desc, b)
    && (FineWrites(schema, desc, a, depth) <==> FineWrites(schema, desc, b, depth))
    && (forall n :: n in desc && desc[n].Single? ==> (Written(desc, a, n) <==> Written(desc, b, n)))
    && (forall o :: Holding(desc, a, o) == Holding(desc, b, o))
    && (AllSound(a) <==> AllSound(b)) && (Typed(schema, desc, a) <==> Typed(schema, desc, b))
  }

  lemma {:induction false} SameFollowed(schema: Schema, desc: Desc, a: Writes, b: Writes, more: Writes, depth: nat)
    requires Same(schema, desc, a, b, depth)
    ensures Same(schema, desc, Followed(a, more), Followed(b, more), depth)
    decreases more
  {
    hide Strange, Belongs, FineData, ValueOf, ElemsOf, Sound;
    if more.And? {
      SameFollowed(schema, desc, a, b, more.before, depth);
      SameNext(schema, desc, Followed(a, more.before), Followed(b, more.before), more.number, more.data, depth);
    }
  }

  lemma SameNext(schema: Schema, desc: Desc, a: Writes, b: Writes, n: nat, d: Data, depth: nat)
    requires Same(schema, desc, a, b, depth)
    ensures Same(schema, desc, And(a, n, d), And(b, n, d), depth)
  {
    hide Strange, Belongs, FineData, ValueOf, ElemsOf, Sound;
    if !Strange(desc, n, d) {
      KnownIsField(desc, n, d);
      assert Again(desc, a, n) <==> Again(desc, b, n);
    }
    var x, y := And(a, n, d), And(b, n, d);
    assert Tree(schema, desc, x) == Tree(schema, desc, y);
    assert FineWrites(schema, desc, x, depth) <==> FineWrites(schema, desc, y, depth);
    assert forall o :: Holding(desc, x, o) == Holding(desc, y, o);
    assert AllSound(x) <==> AllSound(y);
    assert Typed(schema, desc, x) <==> Typed(schema, desc, y);
  }

  lemma {:induction false} ManyInTree(schema: Schema, desc: Desc, ws: Writes, n: nat)
    requires n in desc && desc[n].Repeated?
    ensures var t := Tree(schema, desc, ws); n in t.fields && t.fields[n].Many?
    decreases ws
  {
    hide Strange, ValueOf, ElemsOf;
    if ws.And? {
      ManyInTree(schema, desc, ws.before, n);
      if !Strange(desc, ws.number, ws.data) {
        KnownIsField(desc, ws.number, ws.data);
      }
    }
  }

  /** What one element of a repeated number or fixed-width item adds. */
  lemma ItemIs(schema: Schema, f: Field, d: Data, i: nat)
    requires f.Repeated? && (d.PackedScalars? || d.PackedItems?) && Sound(d) && Belongs(schema, f, d) && i < |ItemsOf(d)|
    ensures var x := ItemsOf(d)[i];
            && Sound(x) && Belongs(schema, f, x) && Code(x) in Codes(f) && (forall depth :: FineData(schema, f, x, depth))
            && |ElemsOf(schema, f, d)| == |ItemsOf(d)| && ElemsOf(schema, f, x) == [ElemsOf(schema, f, d)[i]]
  {
  }

  /** The first elements, written one by one. */
  lemma {:induction false} EachIs(schema: Schema, desc: Desc, ws: Writes, n: nat, d: Data, k: nat, depth: nat)
    requires n in desc && desc[n].Repeated? && (d.PackedScalars? || d.PackedItems?)
    requires 1 <= n < 0x2000_0000 && Sound(d) && Belongs(schema, desc[n], d) && k <= |ItemsOf(d)|
    ensures k <= |ElemsOf(schema, desc[n], d)|
    ensures var e, t := Each(ws, n, ItemsOf(d)[..k]), Tree(schema, desc, ws);
            && n in t.fields && t.fields[n].Many?
            && Tree(schema, desc, e) == Msg(t.fields[n := Many(t.fields[n].values + ElemsOf(schema, desc[n], d)[..k])], t.oneofs)
            && (FineWrites(schema, desc, e, depth) <==> FineWrites(schema, desc, ws, depth))
            && (forall m :: m in desc && desc[m].Single? ==> (Written(desc, e, m) <==> Written(desc, ws, m)))
            && (forall o :: Holding(desc, e, o) == Holding(desc, ws, o))
            && (AllSound(e) <==> AllSound(ws)) && (Typed(schema, desc, e) <==> Typed(schema, desc, ws))
    decreases k
  {
    hide Belongs, FineData, ValueOf, ElemsOf, Sound, ItemsOf, Strange, Tree, FineWrites, Written, Holding, AllSound, Typed;
    ManyInTree(schema, desc, ws, n);
    var items, elems, t := ItemsOf(d), ElemsOf(schema, desc[n], d), Tree(schema, desc, ws);
    if k == 0 {
      AsManyElems(schema, desc[n], d);
      assert items[..0] == [] && elems[..0] == [] && t.fields[n].values + [] == t.fields[n].values;
      assert t.fields[n := t.fields[n]] == t.fields;
    } else {
      EachIs(schema, desc, ws, n, d, k - 1, depth);
      ItemIs(schema, desc[n], d, k - 1);
      CodeIsKnown(desc, n, items[k - 1]);
      assert items[..k][..k - 1] == items[..k - 1] && items[..k][k - 1] == items[k - 1];
      var before := Each(ws, n, items[..k - 1]);
      assert Each(ws, n, items[..k]) == And(before, n, items[k - 1]);
      var values := t.fields[n].values;
      assert elems[..k - 1] + [elems[k - 1]] == elems[..k];
      assert values + elems[..k - 1] + [elems[k - 1]] == values + elems[..k];
      OneMoreItem(schema, desc, before, n, items[k - 1], depth);
    }
  }

  lemma CodeIsKnown(desc: Desc, n: nat, d: Data)
    requires n in desc && Code(d) in Codes(desc[n])
    ensures !Strange(desc, n, d)
  {
  }

  lemma AsManyElems(schema: Schema, f: Field, d: Data)
    requires f.Repeated? && (d.PackedScalars? || d.PackedItems?)
    ensures |ElemsOf(schema, f, d)| == |ItemsOf(d)|
  {
  }

  /** A write of a repeated field that is not a message, or of packed ones. */
  lemma OneMoreItem(schema: Schema, desc: Desc, ws: Writes, n: nat, d: Data, depth: nat)
    requires n in desc && desc[n].Repeated? && !Strange(desc, n, d) && 1 <= n < 0x2000_0000 && Sound(d)
    requires Belongs(schema, desc[n], d) && FineData(schema, desc[n], d, depth)
    requires var t := Tree(schema, desc, ws); n in t.fields && t.fields[n].Many?
    ensures var e, t := And(ws, n, d), Tree(schema, desc, ws);
            && Tree(schema, desc, e) == Msg(t.fields[n := Many(t.fields[n].values + ElemsOf(schema, desc[n], d))], t.oneofs)
            && (FineWrites(schema, desc, e, depth) <==> FineWrites(schema, desc, ws, depth))
            && (forall m :: m in desc && desc[m].Single? ==> (Written(desc, e, m) <==> Written(desc, ws, m)))
            && (forall o :: Holding(desc, e, o) == Holding(desc, ws, o))
            && (AllSound(e) <==> AllSound(ws)) && (Typed(schema, desc, e) <==> Typed(schema, desc, ws))
  {
    hide Belongs, FineData, ElemsOf, Sound, Strange;
  }

  /** A packed record, and one record for each of its elements: the body decodes to the same message either way, whatever
    * stands before and after, or is refused either way. */
  lemma PackedIsEach(schema: Schema, desc: Desc, ws: Writes, n: nat, d: Data, more: Writes, depth: nat)
    requires n in desc && desc[n].Repeated? && (d.PackedScalars? || d.PackedItems?) && Belongs(schema, desc[n], d)
    requires var packed := Followed(And(ws, n, d), more); AllSound(packed) && Typed(schema, desc, packed)
    requires 1 <= n < 0x2000_0000 && Sound(d)
    ensures var packed, each := Bytes(Followed(And(ws, n, d), more)), Bytes(Followed(Each(ws, n, ItemsOf(d)), more));
            && (Accepts(schema, desc, packed, depth) <==> Accepts(schema, desc, each, depth))
            && (Accepts(schema, desc, packed, depth) ==> Ref(schema, desc, packed) == Ref(schema, desc, each))
  {
    var k := |ItemsOf(d)|;
    PackedIsKnown(schema, desc, n, d);
    hide Belongs, FineData, ElemsOf, Sound, Strange, Tree, FineWrites, Written, Holding, AllSound, Typed, Bytes, Accepts, Ref, ItemsOf;
    EachIs(schema, desc, ws, n, d, k, depth);
    assert ItemsOf(d)[..k] == ItemsOf(d);
    AsManyElems(schema, desc[n], d);
    assert ElemsOf(schema, desc[n], d)[..k] == ElemsOf(schema, desc[n], d);
    OneMoreItem(schema, desc, ws, n, d, depth);
    var a, b := And(ws, n, d), Each(ws, n, ItemsOf(d));
    assert Same(schema, desc, a, b, depth);
    SameFollowed(schema, desc, a, b, more, depth);
    hide Same;
    SameFine(schema, desc, Followed(a, more), Followed(b, more), depth);
    BodyMeans(schema, desc, Followed(a, more), depth);
    BodyMeans(schema, desc, Followed(b, more), depth);
  }

  lemma PackedIsKnown(schema: Schema, desc: Desc, n: nat, d: Data)
    requires n in desc && desc[n].Repeated? && (d.PackedScalars? || d.PackedItems?) && Belongs(schema, desc[n], d)
    ensures !Strange(desc, n, d) && forall depth :: FineData(schema, desc[n], d, depth)
  {
  }

  lemma SameFine(schema: Schema, desc: Desc, a: Writes, b: Writes, depth: nat)
    requires Same(schema, desc, a, b, depth)
    ensures Tree(schema, desc, a) == Tree(schema, desc, b)
    ensures Fine(schema, desc, a, depth) <==> Fine(schema, desc, b, depth)
    ensures (AllSound(a) <==> AllSound(b)) && (Typed(schema, desc, a) <==> Typed(schema, desc, b))
  {
    hide Tree, FineWrites, Written, AllSound, Typed;
  }
}
