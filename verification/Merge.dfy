/** The arena decoder's record loop against protobuf's merge semantics. The decoder cannot merge, so it
  * rejects; the reference merges by decoding the concatenated payloads of all occurrences. */
module Merge {
  import opened Basics
  import opened Varint
  import opened Groups
  import Spans

  const MAX_DECODE_DEPTH: nat := 100

  // ---- schema --------------------------------------------------------------------------------

  datatype Kind = Base128Kind | Fixed64 | Fixed32 | Text | Sub(target: nat, delimited: bool)

  /** A required field has its place among the required fields. */
  datatype Field =
    | Single(kind: Kind, required: Option<nat>)
    | Repeated(kind: Kind)
    | MapOf(key: Kind, entry: Kind)
    | Member(oneof: nat, kind: Kind)

  type Desc = map<nat, Field>

  type Schema = map<nat, Desc>

  function DescOf(schema: Schema, target: nat): Desc
  {
    if target in schema then schema[target] else map[]
  }

  /** An entry of a map field is a message with the key as field 1 and the value as field 2. */
  function EntryDesc(key: Kind, entry: Kind): Desc
  {
    map[1 := Single(key, None), 2 := Single(entry, None)]
  }

  function WireFor(k: Kind): WireType
  {
    match k
    case Base128Kind => WVarint
    case Fixed64 => I64
    case Fixed32 => I32
    case Text => Len
    case Sub(_, delimited) => if delimited then SGroup else Len
  }

  predicate Packable(k: Kind) { k.Base128Kind? || k.Fixed64? || k.Fixed32? }

  /** Whether a record of this wire type belongs to the field; any other is skipped as unknown. */
  predicate Takes(f: Field, w: WireType)
  {
    match f
    case Single(k, _) => w == WireFor(k)
    case Member(_, k) => w == WireFor(k)
    case Repeated(k) => w == WireFor(k) || (Packable(k) && w == Len)
    case MapOf(_, _) => w == Len
  }

  // ---- records -------------------------------------------------------------------------------

  datatype Val = Num(n: bv64) | Blob(bytes: seq<bv8>)

  datatype Record = Record(number: nat, wire: WireType, val: Val)

  function RecordOf(tag: Tag, v: Val): Record { Record(tag.field as nat, tag.wire, v) }

  function BytesOf(v: Val): seq<bv8> { if v.Blob? then v.bytes else [] }

  /** The value after a tag: a varint, the bytes of a fixed value or payload, or a group's body. */
  ghost function ValueAt(body: seq<bv8>, p: nat, tag: Tag): (r: Read<Val>)
    requires p <= |body|
    ensures r.Done? ==> p <= r.next <= |body| && |BytesOf(r.value)| <= r.next - p
  {
    match tag.wire
    case WVarint =>
      (match VarintAt(body, p, |body|)
       case Done(v, next) => Done(Num(v), next)
       case Fail(e) => Fail(e))
    case I64 => if |body| - p < 8 then Fail(TruncatedI64) else Done(Blob(body[p..p + 8]), p + 8)
    case I32 => if |body| - p < 4 then Fail(TruncatedI32) else Done(Blob(body[p..p + 4]), p + 4)
    case Len =>
      (match VarintAt(body, p, |body|)
       case Fail(e) => Fail(e)
       case Done(len, next) =>
         if len as nat > |body| - next then Fail(LengthExceedsBuffer)
         else Done(Blob(body[next..next + len as nat]), next + len as nat))
    case SGroup =>
      (match ScanSpec(body, p, |body|, tag.field, 1)
       case Closed(egroup, next) => Done(Blob(body[p..egroup]), next)
       case Broken(e, _) => Fail(e))
    case EGroup => Fail(UnexpectedEndGroup)
  }

  /** Reads the value, or says at which offset of the body reading it fails. */
  method ReadValue(body: seq<bv8>, p: nat, tag: Tag) returns (r: Read<Val>, off: nat)
    requires p <= |body|
    ensures r == ValueAt(body, p, tag) && off == FailAt(body, p, tag)
  {
    hide VarintAt, ScanSpec, SkipSpec, FailAt;
    FailAtIs(body, p, tag);
    off := p;
    match tag.wire
    case WVarint =>
      var v := VarintAt(body, p, |body|);
      r := if v.Done? then Done(Num(v.value), v.next) else Fail(v.error);
    case I64 => r := if |body| - p < 8 then Fail(TruncatedI64) else Done(Blob(body[p..p + 8]), p + 8);
    case I32 => r := if |body| - p < 4 then Fail(TruncatedI32) else Done(Blob(body[p..p + 4]), p + 4);
    case Len =>
      var v := VarintAt(body, p, |body|);
      if v.Fail? { return Fail(v.error), p; }
      var len := v.value as nat;
      r := if len > |body| - v.next then Fail(LengthExceedsBuffer)
           else Done(Blob(body[v.next..v.next + len]), v.next + len);
    case SGroup =>
      var g := ReadGroup(body, p, |body|, tag.field);
      if g.NoBody? { return Fail(g.error), g.offset; }
      r := Done(Blob(body[p..g.bodyEnd]), g.next);
    case EGroup => r := Fail(UnexpectedEndGroup);
  }

  /** Where reading the value after a tag fails, as skipping it does: at its start, or inside a group. */
  ghost function FailAt(body: seq<bv8>, p: nat, tag: Tag): nat
    requires p <= |body|
  {
    match SkipSpec(body, p, |body|, tag, 0)
    case Bad(_, off) => off
    case Past(_) => p
  }

  lemma FailAtIs(body: seq<bv8>, p: nat, tag: Tag)
    requires p <= |body|
    ensures FailAt(body, p, tag)
         == if tag.wire == SGroup && ScanSpec(body, p, |body|, tag.field, 1).Broken?
            then ScanSpec(body, p, |body|, tag.field, 1).offset else p
  {
    hide VarintAt, ScanSpec;
  }

  /** Skipping a record at depth 0 and reading it fail together, alike, and leave the same cursor. */
  lemma SkipIsRead(body: seq<bv8>, p: nat, tag: Tag)
    requires p <= |body|
    ensures var s := SkipSpec(body, p, |body|, tag, 0);
            var v := ValueAt(body, p, tag);
            if v.Done? then s == Past(v.next) else s == Bad(v.error, FailAt(body, p, tag))
  {
    hide VarintAt, ScanSpec;
  }

  /** How many bytes the records hold, counting one at least for each tag. */
  ghost function Weight(rs: seq<Record>): nat
  {
    if rs == [] then 0 else Weight(rs[..|rs| - 1]) + |BytesOf(rs[|rs| - 1].val)| + 1
  }

  /** The records of the body from p on, after those already read; none when some record is malformed. */
  ghost function Gather(body: seq<bv8>, p: nat, rs: seq<Record>): (r: Option<seq<Record>>)
    requires p <= |body|
    ensures r.Some? ==> rs <= r.value && Weight(r.value) <= Weight(rs) + |body| - p
    decreases |body| - p
  {
    if p == |body| then Some(rs) else
      match TagAt(body, p, |body|)
      case Fail(_) => None
      case Done(tag, at) =>
        match ValueAt(body, at, tag)
        case Fail(_) => None
        case Done(v, next) =>
          var more := rs + [RecordOf(tag, v)];
          assert more[..|more| - 1] == rs;
          Gather(body, next, more)
  }

  // ---- the reference -------------------------------------------------------------------------

  datatype Value =
    | Simple(val: Val)
    | Msg(fields: map<nat, Slot>, oneofs: map<nat, Held>)
    | Unreadable
  datatype Slot = Absent | One(value: Value) | Many(values: seq<Value>)
  datatype Held = Empty | Holds(number: nat, value: Value)

  /** The record belongs to field n. */
  predicate Hit(desc: Desc, n: nat, r: Record)
  {
    n in desc && r.number == n && Takes(desc[n], r.wire)
  }

  /** The record belongs to a member of the oneof. */
  predicate HitsOneof(desc: Desc, o: nat, r: Record)
  {
    Hit(desc, r.number, r) && desc[r.number].Member? && desc[r.number].oneof == o
  }

  ghost predicate Occurs(desc: Desc, n: nat, rs: seq<Record>)
  {
    exists i :: 0 <= i < |rs| && Hit(desc, n, rs[i])
  }

  /** The payloads of every occurrence of field n, concatenated. */
  ghost function Concat(desc: Desc, n: nat, rs: seq<Record>): (b: seq<bv8>)
    ensures |b| + |rs| <= Weight(rs)
  {
    if rs == [] then [] else
      var before := Concat(desc, n, rs[..|rs| - 1]);
      var r := rs[|rs| - 1];
      if Hit(desc, n, r) then before + BytesOf(r.val) else before
  }

  /** The last occurrence's value. */
  ghost function Last(desc: Desc, n: nat, rs: seq<Record>): Val
    requires Occurs(desc, n, rs)
  {
    var r := rs[|rs| - 1];
    if Hit(desc, n, r) then r.val else Last(desc, n, rs[..|rs| - 1])
  }

  /** The member the oneof holds after the records: the one that occurred last. */
  ghost function Holder(desc: Desc, o: nat, rs: seq<Record>): (h: Option<Record>)
    ensures h.Some? ==> rs != [] && HitsOneof(desc, o, h.value)
  {
    if rs == [] then None
    else if HitsOneof(desc, o, rs[|rs| - 1]) then Some(rs[|rs| - 1])
    else Holder(desc, o, rs[..|rs| - 1])
  }

  /** The payloads of member n since any other member of the oneof occurred, concatenated. */
  ghost function Tail(desc: Desc, o: nat, n: nat, rs: seq<Record>): (b: seq<bv8>)
    ensures |b| + |rs| <= Weight(rs)
  {
    if rs == [] then [] else
      var before := Tail(desc, o, n, rs[..|rs| - 1]);
      var r := rs[|rs| - 1];
      if !HitsOneof(desc, o, r) then before
      else if r.number == n then before + BytesOf(r.val)
      else []
  }

  /** The elements of a packed payload; none when the payload is malformed. */
  ghost function PackedVals(k: Kind, bytes: seq<bv8>): Option<seq<Val>>
  {
    if k.Base128Kind? then
      (match Spans.DecodeSpan(bytes)
       case Values(vs) => Some(seq(|vs|, i requires 0 <= i < |vs| => Num(vs[i])))
       case Malformed(_, _) => None)
    else
      var width := if k.Fixed64? then 8 else 4;
      if |bytes| % width != 0 then None else Some(Spans.FixedElements(bytes, width, AsBlob))
  }

  function AsBlob(bytes: seq<bv8>): Val { Blob(bytes) }

  /** The value of one occurrence, read on its own. */
  ghost function RefValue(schema: Schema, k: Kind, v: Val): Value
    decreases |BytesOf(v)|, 4
  {
    if k.Sub? then Ref(schema, DescOf(schema, k.target), BytesOf(v)) else Simple(v)
  }

  /** What a record adds to a repeated or map field. */
  ghost function RefElems(schema: Schema, f: Field, r: Record): seq<Value>
    requires f.Repeated? || f.MapOf?
    decreases |BytesOf(r.val)|, 5
  {
    if f.MapOf? then [Ref(schema, EntryDesc(f.key, f.entry), BytesOf(r.val))]
    else if r.wire == WireFor(f.kind) then [RefValue(schema, f.kind, r.val)]
    else
      match PackedVals(f.kind, BytesOf(r.val))
      case Some(vs) => seq(|vs|, i requires 0 <= i < |vs| => Simple(vs[i]))
      case None => [Unreadable]
  }

  ghost function RefMany(schema: Schema, desc: Desc, n: nat, rs: seq<Record>, limit: nat): seq<Value>
    requires n in desc && (desc[n].Repeated? || desc[n].MapOf?)
    requires Weight(rs) <= limit
    decreases limit, 0, |rs|
  {
    if rs == [] then [] else
      var before := RefMany(schema, desc, n, rs[..|rs| - 1], limit);
      var r := rs[|rs| - 1];
      if Hit(desc, n, r) then before + RefElems(schema, desc[n], r) else before
  }

  /** A field's value after all the records: the last scalar, the merged message, all the elements. */
  ghost function RefSlot(schema: Schema, desc: Desc, n: nat, rs: seq<Record>, limit: nat): Slot
    requires n in desc && Weight(rs) <= limit
    decreases limit, 1
  {
    match desc[n]
    case Single(k, _) =>
      if !Occurs(desc, n, rs) then Absent
      else if k.Sub? then One(Ref(schema, DescOf(schema, k.target), Concat(desc, n, rs)))
      else One(Simple(Last(desc, n, rs)))
    case Member(_, _) => Absent
    case _ => Many(RefMany(schema, desc, n, rs, limit))
  }

  /** A oneof's value: its last member, merged over the occurrences since another member cleared it. */
  ghost function RefHeld(schema: Schema, desc: Desc, o: nat, rs: seq<Record>, limit: nat): Held
    requires Weight(rs) <= limit
    decreases limit, 1
  {
    match Holder(desc, o, rs)
    case None => Empty
    case Some(r) =>
      if desc[r.number].kind.Sub? then
        Holds(r.number, Ref(schema, DescOf(schema, desc[r.number].kind.target), Tail(desc, o, r.number, rs)))
      else
        Holds(r.number, Simple(r.val))
  }

  function Plain(desc: Desc): set<nat> { set n | n in desc && !desc[n].Member? }

  function Oneofs(desc: Desc): set<nat> { set n | n in desc && desc[n].Member? :: desc[n].oneof }

  ghost function RefMsg(schema: Schema, desc: Desc, rs: seq<Record>, limit: nat): Value
    requires Weight(rs) <= limit
    decreases limit, 2
  {
    Msg(map n | n in Plain(desc) :: RefSlot(schema, desc, n, rs, limit),
        map o | o in Oneofs(desc) :: RefHeld(schema, desc, o, rs, limit))
  }

  /** What protobuf makes of a body. */
  ghost function Ref(schema: Schema, desc: Desc, body: seq<bv8>): Value
    decreases |body|, 3
  {
    match Gather(body, 0, [])
    case None => Unreadable
    case Some(rs) => RefMsg(schema, desc, rs, |body|)
  }

  // ---- what the decoder accepts --------------------------------------------------------------

  ghost predicate Between(desc: Desc, o: nat, n: nat, rs: seq<Record>, i: int, j: int)
  {
    exists k :: i < k < j && 0 <= k < |rs| && HitsOneof(desc, o, rs[k]) && rs[k].number != n
  }

  /** Both occurrences of the message field would have to be merged into one. */
  ghost predicate Merges(desc: Desc, rs: seq<Record>, i: int, j: int)
    requires 0 <= i < j < |rs|
  {
    var n := rs[j].number;
    && rs[i].number == n && Hit(desc, n, rs[i]) && Hit(desc, n, rs[j])
    && match desc[n]
       case Single(k, _) => k.Sub?
       case Member(o, k) => k.Sub? && !Between(desc, o, n, rs, i, j)
       case _ => false
  }

  ghost predicate NoMerge(desc: Desc, rs: seq<Record>)
  {
    forall i, j :: 0 <= i < j < |rs| ==> !Merges(desc, rs, i, j)
  }

  ghost predicate ValueOk(schema: Schema, k: Kind, v: Val, depth: nat)
    decreases |BytesOf(v)|, 4
  {
    k.Sub? ==> depth < MAX_DECODE_DEPTH && Accepts(schema, DescOf(schema, k.target), BytesOf(v), depth + 1)
  }

  /** Every sub-message, packed span and entry is accepted on its own; a skipped record always is. */
  ghost predicate RecordOk(schema: Schema, desc: Desc, r: Record, depth: nat)
    decreases |BytesOf(r.val)|, 5
  {
    Hit(desc, r.number, r) ==>
      match desc[r.number]
      case Single(k, _) => ValueOk(schema, k, r.val, depth)
      case Member(_, k) => ValueOk(schema, k, r.val, depth)
      case Repeated(k) =>
        if r.wire == WireFor(k) then ValueOk(schema, k, r.val, depth) else PackedVals(k, BytesOf(r.val)).Some?
      case MapOf(key, entry) => Accepts(schema, EntryDesc(key, entry), BytesOf(r.val), depth)
  }

  ghost predicate AllOk(schema: Schema, desc: Desc, rs: seq<Record>, depth: nat, limit: nat)
    requires Weight(rs) <= limit
    decreases limit, 0, |rs|
  {
    rs == [] || (AllOk(schema, desc, rs[..|rs| - 1], depth, limit) && RecordOk(schema, desc, rs[|rs| - 1], depth))
  }

  predicate Required(desc: Desc, n: nat) { n in desc && desc[n].Single? && desc[n].required.Some? }

  ghost predicate RequiredPresent(desc: Desc, rs: seq<Record>)
  {
    forall n :: Required(desc, n) ==> Occurs(desc, n, rs)
  }

  /** The bodies the decoder accepts: well-formed records, none in need of a merge, all sub-bodies
    * accepted, and every required field present. */
  ghost predicate Accepts(schema: Schema, desc: Desc, body: seq<bv8>, depth: nat)
    decreases |body|, 3
  {
    match Gather(body, 0, [])
    case None => false
    case Some(rs) =>
      NoMerge(desc, rs) && AllOk(schema, desc, rs, depth, |body|) && RequiredPresent(desc, rs)
  }

  // ---- what it reports otherwise -------------------------------------------------------------

  /** A wire error is reported with its offset in the innermost body, entry or packed span it stands in. */
  datatype Fault =
    | WireFault(error: WireError, offset: nat)
    | TooDeep
    | RepeatedMessage(number: nat)
    | MissingField(number: nat)
    | InputTooLarge

  datatype Parsed<T> = Accepted(value: T) | Faulted(fault: Fault)

  ghost predicate PackedFault(k: Kind, bytes: seq<bv8>, f: Fault)
  {
    if k.Base128Kind? then
      (match Spans.DecodeSpan(bytes)
       case Values(_) => false
       case Malformed(e, off) => f == WireFault(e, off))
    else
      var width := if k.Fixed64? then 8 else 4;
      && |bytes| % width != 0
      && f == WireFault(if k.Fixed64? then TruncatedI64 else TruncatedI32, |bytes| - |bytes| % width)
  }

  ghost predicate ValueFault(schema: Schema, k: Kind, v: Val, depth: nat, f: Fault)
    decreases |BytesOf(v)|, 4
  {
    k.Sub? && if depth >= MAX_DECODE_DEPTH then f == TooDeep
              else BodyFault(schema, DescOf(schema, k.target), BytesOf(v), depth + 1, None, f)
  }

  /** What is wrong inside a record that belongs to a field. */
  ghost predicate RecordFault(schema: Schema, desc: Desc, r: Record, depth: nat, f: Fault)
    requires Hit(desc, r.number, r)
    decreases |BytesOf(r.val)|, 5
  {
    match desc[r.number]
    case Single(k, _) => ValueFault(schema, k, r.val, depth, f)
    case Member(_, k) => ValueFault(schema, k, r.val, depth, f)
    case Repeated(k) =>
      if r.wire == WireFor(k) then ValueFault(schema, k, r.val, depth, f) else PackedFault(k, BytesOf(r.val), f)
    case MapOf(key, entry) =>
      BodyFault(schema, EntryDesc(key, entry), BytesOf(r.val), depth, Some(r.number), f)
  }

  /** What the first record that is not accepted is refused for, or else the lack of a required field. A repeated
      message in a map entry is put down to the map field that owns the entry. */
  ghost predicate BodyFault(schema: Schema, desc: Desc, body: seq<bv8>, depth: nat, owner: Option<nat>, f: Fault)
    decreases |body|, 3
  {
    FaultFrom(schema, desc, body, 0, [], depth, owner, f)
  }

  /** The same of the body from p on, the records rs before it having been accepted. */
  ghost predicate FaultFrom(schema: Schema, desc: Desc, body: seq<bv8>, p: nat, rs: seq<Record>, depth: nat,
                            owner: Option<nat>, f: Fault)
    requires p <= |body|
    decreases |body|, 2, |body| - p
  {
    if p == |body| then f.MissingField? && Missing(desc, rs, f.number) else
      match TagAt(body, p, |body|)
      case Fail(e) => f == WireFault(e, p)
      case Done(tag, at) =>
        if Guarded(desc, tag, rs) then f == RepeatedMessage(if owner.Some? then owner.value else tag.field as nat)
        else
          match ValueAt(body, at, tag)
          case Fail(e) => f == WireFault(e, FailAt(body, at, tag))
          case Done(v, next) =>
            var r := RecordOf(tag, v);
            if RecordOk(schema, desc, r, depth) then FaultFrom(schema, desc, body, next, rs + [r], depth, owner, f)
            else RecordFault(schema, desc, r, depth, f)
  }

  /** The first of the required fields that did not occur. */
  ghost predicate Missing(desc: Desc, rs: seq<Record>, n: nat)
  {
    && Required(desc, n) && !Occurs(desc, n, rs)
    && forall m :: Required(desc, m) && !Occurs(desc, m, rs) ==> desc[n].required.value <= desc[m].required.value
  }

  /** The tag is of a message field already held. */
  ghost predicate Guarded(desc: Desc, tag: Tag, rs: seq<Record>)
  {
    var n := tag.field as nat;
    n in desc && Takes(desc[n], tag.wire) && Repeats(desc, n, rs)
  }

  // ---- one more record -----------------------------------------------------------------------

  lemma OccursGrows(desc: Desc, n: nat, rs: seq<Record>, r: Record)
    ensures Occurs(desc, n, rs + [r]) <==> Occurs(desc, n, rs) || Hit(desc, n, r)
  {
    hide Hit;
    var more := rs + [r];
    if Occurs(desc, n, rs) {
      var i :| 0 <= i < |rs| && Hit(desc, n, rs[i]);
      assert more[i] == rs[i];
    }
    assert more[|rs|] == r;
  }

  lemma {:induction false} ConcatOfNone(desc: Desc, n: nat, rs: seq<Record>)
    requires !Occurs(desc, n, rs)
    ensures Concat(desc, n, rs) == []
  {
    hide Hit;
    if rs != [] {
      assert rs == rs[..|rs| - 1] + [rs[|rs| - 1]];
      OccursGrows(desc, n, rs[..|rs| - 1], rs[|rs| - 1]);
      ConcatOfNone(desc, n, rs[..|rs| - 1]);
    }
  }

  lemma {:induction false} TailOfNone(desc: Desc, o: nat, n: nat, rs: seq<Record>)
    requires Holder(desc, o, rs).Some? ==> Holder(desc, o, rs).value.number != n
    ensures Tail(desc, o, n, rs) == []
  {
    hide HitsOneof;
    if rs != [] && !HitsOneof(desc, o, rs[|rs| - 1]) {
      TailOfNone(desc, o, n, rs[..|rs| - 1]);
    }
  }

  /** Records of other fields, and skipped ones, leave a field as it was. */
  lemma SlotFrame(schema: Schema, desc: Desc, n: nat, rs: seq<Record>, r: Record, limit: nat)
    requires n in desc && !Hit(desc, n, r)
    requires Weight(rs) <= limit && Weight(rs + [r]) <= limit
    ensures RefSlot(schema, desc, n, rs + [r], limit) == RefSlot(schema, desc, n, rs, limit)
  {
    hide Hit;
    OccursGrows(desc, n, rs, r);
    assert (rs + [r])[..|rs|] == rs;
  }

  lemma HeldFrame(schema: Schema, desc: Desc, o: nat, rs: seq<Record>, r: Record, limit: nat)
    requires !HitsOneof(desc, o, r)
    requires Weight(rs) <= limit && Weight(rs + [r]) <= limit
    ensures RefHeld(schema, desc, o, rs + [r], limit) == RefHeld(schema, desc, o, rs, limit)
  {
    hide Hit;
    assert (rs + [r])[..|rs|] == rs;
  }

  lemma SkipStep(schema: Schema, desc: Desc, rs: seq<Record>, r: Record, limit: nat)
    requires !Hit(desc, r.number, r)
    requires Weight(rs) <= limit && Weight(rs + [r]) <= limit
    ensures RefMsg(schema, desc, rs + [r], limit) == RefMsg(schema, desc, rs, limit)
  {
    hide RefSlot, RefHeld, Plain, Oneofs;
    forall n | n in Plain(desc)
      ensures n in desc && RefSlot(schema, desc, n, rs + [r], limit) == RefSlot(schema, desc, n, rs, limit)
    {
      PlainIsField(desc, n);
      SlotFrame(schema, desc, n, rs, r, limit);
    }
    forall o | o in Oneofs(desc)
      ensures RefHeld(schema, desc, o, rs + [r], limit) == RefHeld(schema, desc, o, rs, limit)
    {
      HeldFrame(schema, desc, o, rs, r, limit);
    }
  }

  lemma PlainIsField(desc: Desc, n: nat)
    requires n in Plain(desc)
    ensures n in desc && !desc[n].Member?
  {
  }

  /** A record of a plain field changes that field's slot and nothing else. */
  lemma PlainStep(schema: Schema, desc: Desc, rs: seq<Record>, r: Record, limit: nat)
    requires Hit(desc, r.number, r) && !desc[r.number].Member?
    requires Weight(rs) <= limit && Weight(rs + [r]) <= limit
    ensures var was := RefMsg(schema, desc, rs, limit);
            RefMsg(schema, desc, rs + [r], limit)
            == Msg(was.fields[r.number := RefSlot(schema, desc, r.number, rs + [r], limit)], was.oneofs)
  {
    hide RefSlot, RefHeld;
    forall n | n in Plain(desc) && n != r.number
      ensures RefSlot(schema, desc, n, rs + [r], limit) == RefSlot(schema, desc, n, rs, limit)
    {
      SlotFrame(schema, desc, n, rs, r, limit);
    }
    forall o | o in Oneofs(desc)
      ensures RefHeld(schema, desc, o, rs + [r], limit) == RefHeld(schema, desc, o, rs, limit)
    {
      HeldFrame(schema, desc, o, rs, r, limit);
    }
  }

  /** A record of a oneof member changes what that oneof holds and nothing else. */
  lemma MemberStep(schema: Schema, desc: Desc, rs: seq<Record>, r: Record, limit: nat)
    requires Hit(desc, r.number, r) && desc[r.number].Member?
    requires Weight(rs) <= limit && Weight(rs + [r]) <= limit
    ensures var was := RefMsg(schema, desc, rs, limit);
            var o := desc[r.number].oneof;
            RefMsg(schema, desc, rs + [r], limit)
            == Msg(was.fields, was.oneofs[o := RefHeld(schema, desc, o, rs + [r], limit)])
  {
    hide RefSlot, RefHeld;
    forall n | n in Plain(desc)
      ensures RefSlot(schema, desc, n, rs + [r], limit) == RefSlot(schema, desc, n, rs, limit)
    {
      SlotFrame(schema, desc, n, rs, r, limit);
    }
    forall o | o in Oneofs(desc) && o != desc[r.number].oneof
      ensures RefHeld(schema, desc, o, rs + [r], limit) == RefHeld(schema, desc, o, rs, limit)
    {
      HeldFrame(schema, desc, o, rs, r, limit);
    }
    assert desc[r.number].oneof in Oneofs(desc);
  }

  // ---- the repeat guards ---------------------------------------------------------------------

  /** A message field occurs again while it is already held. */
  ghost predicate Repeats(desc: Desc, n: nat, rs: seq<Record>)
    requires n in desc
  {
    match desc[n]
    case Single(k, _) => k.Sub? && Occurs(desc, n, rs)
    case Member(o, k) => k.Sub? && Holder(desc, o, rs).Some? && Holder(desc, o, rs).value.number == n
    case _ => false
  }

  lemma {:induction false} HolderAt(desc: Desc, o: nat, rs: seq<Record>) returns (k: int)
    ensures -1 <= k < |rs|
    ensures k >= 0 ==> Holder(desc, o, rs) == Some(rs[k])
    ensures k == -1 ==> Holder(desc, o, rs) == None
    ensures forall i :: k < i < |rs| ==> !HitsOneof(desc, o, rs[i])
  {
    hide HitsOneof;
    if rs == [] {
      k := -1;
    } else if HitsOneof(desc, o, rs[|rs| - 1]) {
      k := |rs| - 1;
    } else {
      k := HolderAt(desc, o, rs[..|rs| - 1]);
    }
  }

  /** The guard fires exactly when the new record would have to be merged with an earlier one. */
  lemma RepeatsIsMerge(desc: Desc, rs: seq<Record>, r: Record)
    requires Hit(desc, r.number, r)
    ensures Repeats(desc, r.number, rs) <==> exists i :: 0 <= i < |rs| && Merges(desc, rs + [r], i, |rs|)
  {
    var n, more, j := r.number, rs + [r], |rs|;
    assert more[j] == r;
    if desc[n].Member? {
      MemberRepeats(desc, rs, r);
    } else {
      forall i | 0 <= i < |rs|
        ensures Merges(desc, more, i, j) <==> (desc[n].Single? && desc[n].kind.Sub? && Hit(desc, n, rs[i]))
      {
        assert more[i] == rs[i];
        assert more[j].number == n;
        if desc[n].Single? {
          assert Merges(desc, more, i, j) <==> (desc[n].kind.Sub? && Hit(desc, n, rs[i]));
        }
      }
    }
  }

  lemma MemberRepeats(desc: Desc, rs: seq<Record>, r: Record)
    requires Hit(desc, r.number, r) && desc[r.number].Member?
    ensures Repeats(desc, r.number, rs) <==> exists i :: 0 <= i < |rs| && Merges(desc, rs + [r], i, |rs|)
  {
    var n, o, more, j := r.number, desc[r.number].oneof, rs + [r], |rs|;
    assert more[j] == r;
    var k := HolderAt(desc, o, rs);
    if Repeats(desc, n, rs) {
      assert more[k] == rs[k];
      assert Merges(desc, more, k, j);
    }
    forall i | 0 <= i < |rs| && Merges(desc, more, i, j) ensures Repeats(desc, n, rs) {
      assert more[i] == rs[i];
      assert HitsOneof(desc, o, rs[i]);
      assert i <= k;
      assert more[k] == rs[k];
      assert rs[k].number != n ==> Between(desc, o, n, more, i, j);
    }
  }

  /** Merges looks at no record past the later of the two. */
  lemma MergesLocal(desc: Desc, rs: seq<Record>, more: seq<Record>, i: int, j: int)
    requires 0 <= i < j < |rs| && rs <= more
    ensures Merges(desc, rs, i, j) <==> Merges(desc, more, i, j)
  {
    hide Hit, HitsOneof;
    assert forall k :: 0 <= k < |rs| ==> rs[k] == more[k];
    if rs[j].number in desc && desc[rs[j].number].Member? {
      var o, n := desc[rs[j].number].oneof, rs[j].number;
      if Between(desc, o, n, rs, i, j) {
        var k :| i < k < j && 0 <= k < |rs| && HitsOneof(desc, o, rs[k]) && rs[k].number != n;
        assert more[k] == rs[k];
      }
      if Between(desc, o, n, more, i, j) {
        var k :| i < k < j && 0 <= k < |more| && HitsOneof(desc, o, more[k]) && more[k].number != n;
        assert more[k] == rs[k];
      }
    }
  }

  lemma NoMergeGrows(desc: Desc, rs: seq<Record>, r: Record)
    requires NoMerge(desc, rs)
    ensures NoMerge(desc, rs + [r]) <==> !(Hit(desc, r.number, r) && Repeats(desc, r.number, rs))
  {
    hide Hit, Repeats;
    var more := rs + [r];
    forall i, j | 0 <= i < j < |rs| ensures !Merges(desc, more, i, j) {
      MergesLocal(desc, rs, more, i, j);
    }
    assert more[|rs|] == r;
    if Hit(desc, r.number, r) {
      RepeatsIsMerge(desc, rs, r);
    } else {
      NotHitNoMerge(desc, rs, r);
    }
  }

  lemma NotHitNoMerge(desc: Desc, rs: seq<Record>, r: Record)
    requires !Hit(desc, r.number, r)
    ensures forall i :: 0 <= i < |rs| ==> !Merges(desc, rs + [r], i, |rs|)
  {
    assert (rs + [r])[|rs|] == r;
  }

  lemma NoMergePrefix(desc: Desc, rs: seq<Record>, all: seq<Record>)
    requires rs <= all && NoMerge(desc, all)
    ensures NoMerge(desc, rs)
  {
    hide Merges;
    forall i, j | 0 <= i < j < |rs| ensures !Merges(desc, rs, i, j) {
      MergesLocal(desc, rs, all, i, j);
    }
  }

  lemma {:induction false} AllOkPrefix(schema: Schema, desc: Desc, rs: seq<Record>, all: seq<Record>, depth: nat, limit: nat)
    requires rs <= all && Weight(rs) <= limit && Weight(all) <= limit && AllOk(schema, desc, all, depth, limit)
    ensures AllOk(schema, desc, rs, depth, limit)
    decreases |all|
  {
    hide RecordOk;
    if rs != all {
      AllOkPrefix(schema, desc, rs, all[..|all| - 1], depth, limit);
    }
  }

  // ---- the decoder ---------------------------------------------------------------------------

  /** A body is refused when the records so far, all of them prefixes of any reading, are. */
  lemma PrefixRefuses(schema: Schema, desc: Desc, body: seq<bv8>, depth: nat, p: nat, rs: seq<Record>)
    requires p <= |body| && Weight(rs) <= p && Gather(body, p, rs) == Gather(body, 0, [])
    requires !NoMerge(desc, rs) || !AllOk(schema, desc, rs, depth, |body|)
    ensures !Accepts(schema, desc, body, depth)
  {
    hide NoMerge, AllOk, RequiredPresent;
    var g := Gather(body, p, rs);
    if g.Some? && NoMerge(desc, g.value) && AllOk(schema, desc, g.value, depth, |body|) {
      NoMergePrefix(desc, rs, g.value);
      AllOkPrefix(schema, desc, rs, g.value, depth, |body|);
    }
  }

  /** Decodes one value: a scalar or string as it is, a sub-message one level deeper. */
  method DecodeValue(schema: Schema, k: Kind, v: Val, depth: nat) returns (r: Parsed<Value>)
    ensures r.Accepted? <==> ValueOk(schema, k, v, depth)
    ensures r.Accepted? ==> r.value == RefValue(schema, k, v)
    ensures r.Faulted? ==> ValueFault(schema, k, v, depth, r.fault)
    decreases |BytesOf(v)|, 4
  {
    hide Ref, Accepts, BodyFault;
    if !k.Sub? {
      return Accepted(Simple(v));
    }
    if depth + 1 > MAX_DECODE_DEPTH {
      return Faulted(TooDeep);
    }
    r := DecodeBody(schema, DescOf(schema, k.target), BytesOf(v), depth + 1, None);
  }

  /** Reads a packed payload element by element. */
  method ReadPacked(k: Kind, bytes: seq<bv8>) returns (r: Parsed<seq<Value>>)
    requires Packable(k)
    ensures match PackedVals(k, bytes)
            case None => r.Faulted? && PackedFault(k, bytes, r.fault)
            case Some(vs) => r.Accepted? && r.value == seq(|vs|, i requires 0 <= i < |vs| => Simple(vs[i]))
  {
    if k.Base128Kind? {
      r := ReadPackedVarints(bytes);
    } else {
      r := ReadPackedFixed(bytes, if k.Fixed64? then 8 else 4);
    }
  }

  ghost function Simples(vs: seq<Val>): seq<Value>
  {
    seq(|vs|, i requires 0 <= i < |vs| => Simple(vs[i]))
  }

  method ReadPackedVarints(bytes: seq<bv8>) returns (r: Parsed<seq<Value>>)
    ensures match Spans.DecodeSpan(bytes)
            case Values(vs) => r == Accepted(Simples(seq(|vs|, i requires 0 <= i < |vs| => Num(vs[i]))))
            case Malformed(e, off) => r == Faulted(WireFault(e, off))
  {
    hide VarintAt;
    var q, out := 0, [];
    ghost var vals := [];
    while q < |bytes|
      invariant 0 <= q <= |bytes|
      invariant Spans.DecodeFrom(bytes, q, vals) == Spans.DecodeSpan(bytes)
      invariant |out| == |vals| && forall i :: 0 <= i < |vals| ==> out[i] == Simple(Num(vals[i]))
      decreases |bytes| - q
    {
      var v := VarintAt(bytes, q, |bytes|);
      if v.Fail? {
        return Faulted(WireFault(v.error, q));
      }
      q := v.next;
      out := out + [Simple(Num(v.value))];
      vals := vals + [v.value];
    }
    assert out == Simples(seq(|vals|, i requires 0 <= i < |vals| => Num(vals[i])));
    r := Accepted(out);
  }

  /** The elements of whole width, and a tail shorter than one is where the reading fails. */
  method ReadPackedFixed(bytes: seq<bv8>, width: nat) returns (r: Parsed<seq<Value>>)
    requires width == 4 || width == 8
    ensures if |bytes| % width != 0
            then r == Faulted(WireFault(if width == 8 then TruncatedI64 else TruncatedI32, |bytes| - |bytes| % width))
            else r == Accepted(Simples(Spans.FixedElements(bytes, width, AsBlob)))
  {
    var out, q := SplitFixed(bytes, width);
    if q < |bytes| {
      return Faulted(WireFault(if width == 8 then TruncatedI64 else TruncatedI32, q));
    }
    assert bytes[0..] == bytes;
    r := Accepted(out);
  }

  ghost function FixedFrom(bytes: seq<bv8>, q: nat, width: nat): seq<Value>
    requires (width == 4 || width == 8) && q <= |bytes|
  {
    Simples(Spans.FixedElements(bytes[q..], width, AsBlob))
  }

  method SplitFixed(bytes: seq<bv8>, width: nat) returns (out: seq<Value>, q: nat)
    requires width == 4 || width == 8
    ensures out == FixedFrom(bytes, 0, width) && q == |bytes| - |bytes| % width
  {
    hide FixedFrom, Whole;
    WholeSteps(0, |bytes|, width);
    q, out := 0, [];
    while q + width <= |bytes|
      invariant 0 <= q <= |bytes| && Whole(q, width)
      invariant FixedFrom(bytes, 0, width) == out + FixedFrom(bytes, q, width)
    {
      NextFixed(bytes, q, width);
      WholeSteps(q, |bytes|, width);
      out := out + [Simple(Blob(bytes[q..q + width]))];
      q := q + width;
    }
    NoMoreFixed(bytes, q, width);
    WholeSteps(q, |bytes|, width);
  }

  predicate Whole(q: nat, width: nat)
    requires width > 0
  {
    q % width == 0
  }

  lemma WholeSteps(q: nat, n: nat, width: nat)
    requires width == 4 || width == 8
    ensures Whole(0, width) && (Whole(q, width) ==> Whole(q + width, width))
    ensures Whole(q, width) && q <= n < q + width ==> q == n - n % width
  {
    if width == 4 {
      assert Whole(q, 4) <==> q % 4 == 0;
    } else {
      assert Whole(q, 8) <==> q % 8 == 0;
    }
  }

  lemma NextFixed(bytes: seq<bv8>, q: nat, width: nat)
    requires (width == 4 || width == 8) && q + width <= |bytes|
    ensures FixedFrom(bytes, q, width) == [Simple(Blob(bytes[q..q + width]))] + FixedFrom(bytes, q + width, width)
  {
    hide Spans.FixedElements;
    Spans.FixedNext(bytes, q, width, AsBlob);
  }

  lemma NoMoreFixed(bytes: seq<bv8>, q: nat, width: nat)
    requires (width == 4 || width == 8) && q <= |bytes| < q + width
    ensures FixedFrom(bytes, q, width) == []
  {
    Spans.FixedDone(bytes[q..], width, AsBlob);
  }

  /** What a record adds to a repeated or map field. */
  method DecodeElems(schema: Schema, desc: Desc, rec: Record, depth: nat) returns (r: Parsed<seq<Value>>)
    requires Hit(desc, rec.number, rec) && (desc[rec.number].Repeated? || desc[rec.number].MapOf?)
    ensures r.Accepted? <==> RecordOk(schema, desc, rec, depth)
    ensures r.Accepted? ==> r.value == RefElems(schema, desc[rec.number], rec)
    ensures r.Faulted? ==> RecordFault(schema, desc, rec, depth, r.fault)
    decreases |BytesOf(rec.val)|, 5
  {
    hide Ref, Accepts, PackedVals, BodyFault, PackedFault;
    var f := desc[rec.number];
    if f.MapOf? {
      var entry := DecodeBody(schema, EntryDesc(f.key, f.entry), BytesOf(rec.val), depth, Some(rec.number));
      return match entry case Accepted(e) => Accepted([e]) case Faulted(fault) => Faulted(fault);
    }
    if rec.wire == WireFor(f.kind) {
      var v := DecodeValue(schema, f.kind, rec.val, depth);
      return match v case Accepted(e) => Accepted([e]) case Faulted(fault) => Faulted(fault);
    }
    r := ReadPacked(f.kind, BytesOf(rec.val));
  }

  /** Takes one record into the field it belongs to, the repeat guard having passed. */
  method Take(schema: Schema, desc: Desc, rec: Record, depth: nat, out: Value, ghost rs: seq<Record>, ghost limit: nat)
    returns (r: Parsed<Value>)
    requires Hit(desc, rec.number, rec) && !Repeats(desc, rec.number, rs)
    requires Weight(rs) <= limit && Weight(rs + [rec]) <= limit && |BytesOf(rec.val)| < limit
    requires out == RefMsg(schema, desc, rs, limit)
    ensures r.Accepted? <==> RecordOk(schema, desc, rec, depth)
    ensures r.Accepted? ==> r.value == RefMsg(schema, desc, rs + [rec], limit)
    ensures r.Faulted? ==> RecordFault(schema, desc, rec, depth, r.fault)
    decreases limit, 0
  {
    var n, f := rec.number, desc[rec.number];
    if f.Single? {
      var v := DecodeValue(schema, f.kind, rec.val, depth);
      if v.Faulted? { return v; }
      PlainStep(schema, desc, rs, rec, limit);
      SingleSlot(schema, desc, rs, rec, limit);
      r := Accepted(Msg(out.fields[n := One(v.value)], out.oneofs));
    } else if f.Member? {
      var v := DecodeValue(schema, f.kind, rec.val, depth);
      if v.Faulted? { return v; }
      MemberStep(schema, desc, rs, rec, limit);
      MemberHeld(schema, desc, rs, rec, limit);
      r := Accepted(Msg(out.fields, out.oneofs[f.oneof := Holds(n, v.value)]));
    } else {
      var vs := DecodeElems(schema, desc, rec, depth);
      if vs.Faulted? { return Faulted(vs.fault); }
      PlainStep(schema, desc, rs, rec, limit);
      ManySlot(schema, desc, rs, rec, limit);
      r := Accepted(Msg(out.fields[n := Many(out.fields[n].values + vs.value)], out.oneofs));
    }
  }

  lemma SingleSlot(schema: Schema, desc: Desc, rs: seq<Record>, r: Record, limit: nat)
    requires Hit(desc, r.number, r) && desc[r.number].Single? && !Repeats(desc, r.number, rs)
    requires Weight(rs + [r]) <= limit
    ensures RefSlot(schema, desc, r.number, rs + [r], limit) == One(RefValue(schema, desc[r.number].kind, r.val))
  {
    hide Takes, Ref;
    OccursGrows(desc, r.number, rs, r);
    assert (rs + [r])[..|rs|] == rs;
    if desc[r.number].kind.Sub? {
      ConcatOfNone(desc, r.number, rs);
      assert Concat(desc, r.number, rs + [r]) == BytesOf(r.val);
    }
  }

  lemma MemberHeld(schema: Schema, desc: Desc, rs: seq<Record>, r: Record, limit: nat)
    requires Hit(desc, r.number, r) && desc[r.number].Member? && !Repeats(desc, r.number, rs)
    requires Weight(rs + [r]) <= limit
    ensures RefHeld(schema, desc, desc[r.number].oneof, rs + [r], limit)
         == Holds(r.number, RefValue(schema, desc[r.number].kind, r.val))
  {
    hide Takes, Ref;
    assert (rs + [r])[..|rs|] == rs;
    if desc[r.number].kind.Sub? {
      TailOfNone(desc, desc[r.number].oneof, r.number, rs);
      assert Tail(desc, desc[r.number].oneof, r.number, rs + [r]) == BytesOf(r.val);
    }
  }

  lemma ManySlot(schema: Schema, desc: Desc, rs: seq<Record>, r: Record, limit: nat)
    requires Hit(desc, r.number, r) && (desc[r.number].Repeated? || desc[r.number].MapOf?)
    requires Weight(rs) <= limit && Weight(rs + [r]) <= limit
    ensures RefSlot(schema, desc, r.number, rs, limit).Many?
    ensures RefSlot(schema, desc, r.number, rs + [r], limit)
         == Many(RefSlot(schema, desc, r.number, rs, limit).values + RefElems(schema, desc[r.number], r))
  {
    hide Takes, Ref, RefElems;
    assert (rs + [r])[..|rs|] == rs;
  }

  /** Whether the message field of this tag is already held, by the state the decoder keeps anyway: the
    * slot of a singular field, the discriminant of a oneof. */
  method AlreadyHeld(schema: Schema, desc: Desc, n: nat, out: Value, ghost rs: seq<Record>, ghost limit: nat)
    returns (held: bool)
    requires n in desc && Weight(rs) <= limit && out == RefMsg(schema, desc, rs, limit)
    ensures held == Repeats(desc, n, rs)
  {
    hide Ref;
    match desc[n]
    case Single(k, _) => held := k.Sub? && out.fields[n].One?;
    case Member(o, k) => held := k.Sub? && out.oneofs[o].Holds? && out.oneofs[o].number == n;
    case _ => held := false;
  }

  lemma GatherStep(body: seq<bv8>, p: nat, rs: seq<Record>, tag: Tag, at: nat)
    requires p < |body| && TagAt(body, p, |body|) == Done(tag, at)
    ensures ValueAt(body, at, tag).Fail? ==> Gather(body, p, rs) == None
    ensures ValueAt(body, at, tag).Done? ==>
              var read := ValueAt(body, at, tag);
              var more := rs + [RecordOf(tag, read.value)];
              Gather(body, p, rs) == Gather(body, read.next, more) && Weight(more) <= Weight(rs) + read.next - p
  {
    hide TagAt, ValueAt;
    var v := ValueAt(body, at, tag);
    if v.Done? {
      var more := rs + [RecordOf(tag, v.value)];
      assert more[..|rs|] == rs;
    }
  }

  lemma AllOkGrows(schema: Schema, desc: Desc, rs: seq<Record>, r: Record, depth: nat, limit: nat)
    requires Weight(rs) <= limit && Weight(rs + [r]) <= limit && AllOk(schema, desc, rs, depth, limit)
    ensures AllOk(schema, desc, rs + [r], depth, limit) <==> RecordOk(schema, desc, r, depth)
  {
    hide RecordOk;
    assert (rs + [r])[..|rs|] == rs;
  }

  /** The loop's state after the records rs, with the cursor at p. */
  ghost predicate Reading(schema: Schema, desc: Desc, body: seq<bv8>, depth: nat, owner: Option<nat>,
                          p: nat, rs: seq<Record>, out: Value)
  {
    && p <= |body| && Weight(rs) <= p
    && Gather(body, p, rs) == Gather(body, 0, [])
    && NoMerge(desc, rs) && AllOk(schema, desc, rs, depth, |body|)
    && out == RefMsg(schema, desc, rs, |body|)
    && forall f :: FaultFrom(schema, desc, body, p, rs, depth, owner, f) ==> BodyFault(schema, desc, body, depth, owner, f)
  }

  /** The record would have to be merged, or its own payload is not accepted. */
  ghost predicate Refused(schema: Schema, desc: Desc, rs: seq<Record>, r: Record, depth: nat)
  {
    (Hit(desc, r.number, r) && Repeats(desc, r.number, rs)) || !RecordOk(schema, desc, r, depth)
  }

  /** The record at p after a guard that fired, or whose own payload is refused: no reading accepts it. */
  lemma StepRefuses(schema: Schema, desc: Desc, body: seq<bv8>, depth: nat, owner: Option<nat>, p: nat, rs: seq<Record>,
                    out: Value, tag: Tag, at: nat, f: Fault)
    requires Reading(schema, desc, body, depth, owner, p, rs, out)
    requires p < |body| && TagAt(body, p, |body|) == Done(tag, at)
    requires ValueAt(body, at, tag).Done? ==> Refused(schema, desc, rs, RecordOf(tag, ValueAt(body, at, tag).value), depth)
    requires FaultFrom(schema, desc, body, p, rs, depth, owner, f)
    ensures !Accepts(schema, desc, body, depth) && BodyFault(schema, desc, body, depth, owner, f)
  {
    hide TagAt, ValueAt, Hit, Repeats, RecordOk, NoMerge, AllOk, RequiredPresent, RefMsg, BodyFault, FaultFrom;
    GatherStep(body, p, rs, tag, at);
    var v := ValueAt(body, at, tag);
    if v.Done? {
      var r := RecordOf(tag, v.value);
      NoMergeGrows(desc, rs, r);
      AllOkGrows(schema, desc, rs, r, depth, |body|);
      PrefixRefuses(schema, desc, body, depth, v.next, rs + [r]);
    }
  }

  lemma StepReads(schema: Schema, desc: Desc, body: seq<bv8>, depth: nat, owner: Option<nat>, p: nat, rs: seq<Record>,
                  out: Value, tag: Tag, at: nat, r: Record, next: Value)
    requires Reading(schema, desc, body, depth, owner, p, rs, out)
    requires p < |body| && TagAt(body, p, |body|) == Done(tag, at) && ValueAt(body, at, tag).Done?
    requires r == RecordOf(tag, ValueAt(body, at, tag).value) && !Refused(schema, desc, rs, r, depth)
    requires Weight(rs + [r]) <= |body| && next == RefMsg(schema, desc, rs + [r], |body|)
    ensures Reading(schema, desc, body, depth, owner, ValueAt(body, at, tag).next, rs + [r], next)
  {
    hide TagAt, ValueAt, Hit, Repeats, RecordOk, NoMerge, AllOk, RefMsg, BodyFault, FaultFrom;
    GatherStep(body, p, rs, tag, at);
    NoMergeGrows(desc, rs, r);
    AllOkGrows(schema, desc, rs, r, depth, |body|);
    forall f | FaultFrom(schema, desc, body, ValueAt(body, at, tag).next, rs + [r], depth, owner, f)
      ensures FaultFrom(schema, desc, body, p, rs, depth, owner, f)
    {
      FaultPasses(schema, desc, body, depth, owner, p, rs, tag, at, f);
    }
  }

  /** A record that is accepted is not what is reported. */
  lemma FaultPasses(schema: Schema, desc: Desc, body: seq<bv8>, depth: nat, owner: Option<nat>, p: nat, rs: seq<Record>,
                    tag: Tag, at: nat, f: Fault)
    requires p < |body| && TagAt(body, p, |body|) == Done(tag, at) && ValueAt(body, at, tag).Done?
    requires !Refused(schema, desc, rs, RecordOf(tag, ValueAt(body, at, tag).value), depth)
    ensures FaultFrom(schema, desc, body, p, rs, depth, owner, f)
        <==> FaultFrom(schema, desc, body, ValueAt(body, at, tag).next,
                       rs + [RecordOf(tag, ValueAt(body, at, tag).value)], depth, owner, f)
  {
    hide TagAt, ValueAt, Repeats, RecordOk, Takes, RecordFault;
  }

  lemma SkippedIsOk(schema: Schema, desc: Desc, r: Record, depth: nat)
    requires !Hit(desc, r.number, r)
    ensures RecordOk(schema, desc, r, depth)
  {
  }

  lemma HitIs(desc: Desc, r: Record)
    ensures Hit(desc, r.number, r) <==> r.number in desc && Takes(desc[r.number], r.wire)
  {
  }

  /** One turn of the loop, its tag read: the arm of the switch, or the skip. */
  method Step(schema: Schema, desc: Desc, body: seq<bv8>, depth: nat, owner: Option<nat>, p: nat, tag: Tag, at: nat,
              out: Value, ghost rs: seq<Record>)
    returns (next: Parsed<Value>, after: nat, ghost more: seq<Record>)
    requires Reading(schema, desc, body, depth, owner, p, rs, out)
    requires p < |body| && TagAt(body, p, |body|) == Done(tag, at)
    ensures next.Faulted? ==> !Accepts(schema, desc, body, depth) && BodyFault(schema, desc, body, depth, owner, next.fault)
    ensures next.Accepted? ==> p < after && Reading(schema, desc, body, depth, owner, after, more, next.value)
    decreases |body|, 2
  {
    hide NoMerge, AllOk, RefMsg, Hit, Repeats, RecordOk, TagAt, ValueAt, SkipSpec, Accepts, Takes, FailAt, FaultFrom, BodyFault,
         RecordFault, Guarded;
    next, after, more := Accepted(out), p, rs;
    GatherStep(body, p, rs, tag, at);
    ghost var read := ValueAt(body, at, tag);
    ghost var r := RecordOf(tag, if read.Done? then read.value else Num(0));
    HitIs(desc, r);
    var n := tag.field as nat;
    GuardedIs(desc, tag, rs);
    if n in desc && Takes(desc[n], tag.wire) {
      var held := AlreadyHeld(schema, desc, n, out, rs, |body|);
      if held {
        next := Faulted(RepeatedMessage(if owner.Some? then owner.value else n));
      } else {
        var v, off := ReadValue(body, at, tag);
        if v.Fail? {
          next := Faulted(WireFault(v.error, off));
        } else {
          next := Take(schema, desc, RecordOf(tag, v.value), depth, out, rs, |body|);
          after := v.next;
        }
      }
    } else {
      var s := SkipValue(body, at, |body|, tag, 0);
      SkipIsRead(body, at, tag);
      if s.Bad? {
        next := Faulted(WireFault(s.error, s.offset));
      } else {
        after := s.next;
        SkippedIsOk(schema, desc, r, depth);
        SkipStep(schema, desc, rs, r, |body|);
      }
    }
    more := rs + [r];
    if next.Accepted? {
      StepReads(schema, desc, body, depth, owner, p, rs, out, tag, at, r, next.value);
    } else {
      FaultHere(schema, desc, body, depth, owner, p, rs, tag, at, next.fault);
      StepRefuses(schema, desc, body, depth, owner, p, rs, out, tag, at, next.fault);
    }
  }

  lemma GuardedIs(desc: Desc, tag: Tag, rs: seq<Record>)
    ensures Guarded(desc, tag, rs)
        <==> tag.field as nat in desc && Takes(desc[tag.field as nat], tag.wire) && Repeats(desc, tag.field as nat, rs)
  {
    hide Takes, Repeats;
  }

  /** What is wrong with the record at p is what is reported. */
  lemma FaultHere(schema: Schema, desc: Desc, body: seq<bv8>, depth: nat, owner: Option<nat>, p: nat, rs: seq<Record>,
                  tag: Tag, at: nat, f: Fault)
    requires p < |body| && TagAt(body, p, |body|) == Done(tag, at)
    requires var v := ValueAt(body, at, tag);
             if Guarded(desc, tag, rs) then f == RepeatedMessage(if owner.Some? then owner.value else tag.field as nat)
             else if v.Fail? then f == WireFault(v.error, FailAt(body, at, tag))
             else var r := RecordOf(tag, v.value);
                  && Hit(desc, r.number, r) && !RecordOk(schema, desc, r, depth)
                  && RecordFault(schema, desc, r, depth, f)
    ensures FaultFrom(schema, desc, body, p, rs, depth, owner, f)
  {
    hide TagAt, ValueAt, Guarded, RecordOk, Hit, RecordFault, FailAt;
  }

  lemma StartIs(schema: Schema, desc: Desc, limit: nat)
    ensures RefMsg(schema, desc, [], limit)
         == Msg(map n | n in Plain(desc) :: if desc[n].Single? then Absent else Many([]),
                map o | o in Oneofs(desc) :: Empty)
  {
    hide RefSlot, RefHeld;
    forall n | n in Plain(desc)
      ensures RefSlot(schema, desc, n, [], limit) == if desc[n].Single? then Absent else Many([])
    {
      SlotOfNone(schema, desc, n, limit);
    }
    forall o | o in Oneofs(desc) ensures RefHeld(schema, desc, o, [], limit) == Empty {
      HeldOfNone(schema, desc, o, limit);
    }
  }

  lemma SlotOfNone(schema: Schema, desc: Desc, n: nat, limit: nat)
    requires n in Plain(desc)
    ensures RefSlot(schema, desc, n, [], limit) == if desc[n].Single? then Absent else Many([])
  {
  }

  lemma HeldOfNone(schema: Schema, desc: Desc, o: nat, limit: nat)
    ensures RefHeld(schema, desc, o, [], limit) == Empty
  {
  }

  /** The message before any record. */
  method Start(schema: Schema, desc: Desc, body: seq<bv8>, depth: nat, ghost owner: Option<nat>) returns (out: Value)
    ensures Reading(schema, desc, body, depth, owner, 0, [], out)
  {
    hide Ref;
    out := Msg(map n | n in Plain(desc) :: if desc[n].Single? then Absent else Many([]),
               map o | o in Oneofs(desc) :: Empty);
    StartIs(schema, desc, |body|);
  }

  /** A required field whose slot is still empty. */
  predicate Lacks(desc: Desc, out: Value, n: nat)
  {
    Required(desc, n) && out.Msg? && n in out.fields && out.fields[n] == Absent
  }

  /** After the loop: the first required field that never occurred, if there is one. */
  method FirstMissing(schema: Schema, desc: Desc, out: Value, ghost rs: seq<Record>, ghost limit: nat) returns (r: Option<nat>)
    requires Weight(rs) <= limit && out == RefMsg(schema, desc, rs, limit)
    ensures r.None? <==> RequiredPresent(desc, rs)
    ensures r.Some? ==> Missing(desc, rs, r.value)
  {
    LacksIs(schema, desc, rs, limit);
    hide RefMsg, Lacks, Occurs;
    if exists n :: n in desc && Lacks(desc, out, n) {
      ghost var left := set n | n in desc && Lacks(desc, out, n);
      ghost var some :| some in desc && Lacks(desc, out, some);
      assert some in left;
      ghost var first := FirstLacks(desc, left);
      var n :| n in desc && Lacks(desc, out, n) && forall m :: m in desc && Lacks(desc, out, m) ==> Before(desc, n, m);
      FirstIsMissing(desc, rs, n);
      r := Some(n);
    } else {
      r := None;
    }
  }

  predicate Before(desc: Desc, n: nat, m: nat)
  {
    Required(desc, n) && Required(desc, m) && desc[n].required.value <= desc[m].required.value
  }

  lemma LacksIs(schema: Schema, desc: Desc, rs: seq<Record>, limit: nat)
    requires Weight(rs) <= limit
    ensures forall n :: Lacks(desc, RefMsg(schema, desc, rs, limit), n) <==> Required(desc, n) && !Occurs(desc, n, rs)
  {
    hide Ref, Occurs;
    forall n | Required(desc, n)
      ensures Lacks(desc, RefMsg(schema, desc, rs, limit), n) <==> !Occurs(desc, n, rs)
    {
      assert n in Plain(desc);
    }
  }

  lemma FirstIsMissing(desc: Desc, rs: seq<Record>, n: nat)
    requires Required(desc, n) && !Occurs(desc, n, rs)
    requires forall m :: Required(desc, m) && !Occurs(desc, m, rs) ==> Before(desc, n, m)
    ensures Missing(desc, rs, n)
  {
    hide Occurs;
  }

  lemma Steps(desc: Desc, n: nat, k: nat)
    requires Required(desc, n) && Required(desc, k)
    ensures Before(desc, n, n) && (Before(desc, n, k) || Before(desc, k, n))
    ensures Before(desc, n, k) ==> forall m :: Before(desc, k, m) ==> Before(desc, n, m)
  {
  }

  lemma {:induction false} FirstLacks(desc: Desc, left: set<nat>) returns (first: nat)
    requires left != {} && forall n :: n in left ==> Required(desc, n)
    ensures first in left && forall m :: m in left ==> Before(desc, first, m)
    decreases |left|
  {
    hide Before, Required;
    var n :| n in left;
    var rest := left - {n};
    assert forall m :: m in left <==> m == n || m in rest;
    Steps(desc, n, n);
    first := n;
    if rest != {} {
      var k := FirstLacks(desc, rest);
      Steps(desc, n, k);
      if !Before(desc, n, k) {
        first := k;
      }
    }
  }

  /** The decode loop over one body: accepts exactly the bodies that need no merge and are otherwise sound, and then
    * builds what protobuf's merge semantics build; otherwise it reports the first thing that is wrong. The owner of a
    * map entry is the number of its map field. */
  method DecodeBody(schema: Schema, desc: Desc, body: seq<bv8>, depth: nat, owner: Option<nat>) returns (r: Parsed<Value>)
    ensures r.Accepted? <==> Accepts(schema, desc, body, depth)
    ensures r.Accepted? ==> r.value == Ref(schema, desc, body)
    ensures r.Faulted? ==> BodyFault(schema, desc, body, depth, owner, r.fault)
    decreases |body|, 3
  {
    hide Reading, NoMerge, AllOk, RefMsg, RequiredPresent, TagAt, ReadTagOrEnd, BodyFault, FaultFrom;
    var p := 0;
    ghost var rs: seq<Record> := [];
    var out := Start(schema, desc, body, depth, owner);
    while true
      invariant p <= |body| && Reading(schema, desc, body, depth, owner, p, rs, out)
      decreases |body| - p
    {
      var t := ReadTagOrEnd(body, p, |body|);
      ReadTagOrEndIsTagAt(body, p, |body|);
      if t == AtEnd {
        break;
      }
      if t.BadTag? {
        BadTagRefuses(schema, desc, body, depth, owner, p, rs, out);
        return Faulted(WireFault(t.error, p));
      }
      var next, after;
      ghost var more;
      next, after, more := Step(schema, desc, body, depth, owner, p, t.tag, t.next, out, rs);
      if next.Faulted? {
        return next;
      }
      ReadingStays(schema, desc, body, depth, owner, after, more, next.value);
      out, p, rs := next.value, after, more;
    }
    AtEndAccepts(schema, desc, body, depth, owner, rs, out);
    var missing := FirstMissing(schema, desc, out, rs, |body|);
    r := match missing case None => Accepted(out) case Some(n) => Faulted(MissingField(n));
  }

  lemma BadTagRefuses(schema: Schema, desc: Desc, body: seq<bv8>, depth: nat, owner: Option<nat>, p: nat, rs: seq<Record>, out: Value)
    requires Reading(schema, desc, body, depth, owner, p, rs, out) && p < |body| && TagAt(body, p, |body|).Fail?
    ensures !Accepts(schema, desc, body, depth)
    ensures BodyFault(schema, desc, body, depth, owner, WireFault(TagAt(body, p, |body|).error, p))
  {
    hide NoMerge, AllOk, RefMsg, TagAt, BodyFault;
    assert FaultFrom(schema, desc, body, p, rs, depth, owner, WireFault(TagAt(body, p, |body|).error, p));
  }

  lemma ReadingStays(schema: Schema, desc: Desc, body: seq<bv8>, depth: nat, owner: Option<nat>, p: nat, rs: seq<Record>, out: Value)
    requires Reading(schema, desc, body, depth, owner, p, rs, out)
    ensures p <= |body|
  {
  }

  lemma AtEndAccepts(schema: Schema, desc: Desc, body: seq<bv8>, depth: nat, owner: Option<nat>, rs: seq<Record>, out: Value)
    requires Reading(schema, desc, body, depth, owner, |body|, rs, out)
    ensures Weight(rs) <= |body| && out == RefMsg(schema, desc, rs, |body|) && out == Ref(schema, desc, body)
    ensures Accepts(schema, desc, body, depth) <==> RequiredPresent(desc, rs)
    ensures forall n :: Missing(desc, rs, n) ==> BodyFault(schema, desc, body, depth, owner, MissingField(n))
  {
    hide NoMerge, AllOk, RefMsg, RequiredPresent, Missing, BodyFault;
    forall n | Missing(desc, rs, n) ensures BodyFault(schema, desc, body, depth, owner, MissingField(n)) {
      assert FaultFrom(schema, desc, body, |body|, rs, depth, owner, MissingField(n));
    }
  }

  const MAX_INPUT: nat := 0xFFFF_FFFF

  /** The public entry: an input whose counts would not fit 32 bits is rejected up front. */
  method Decode(schema: Schema, target: nat, input: seq<bv8>) returns (r: Parsed<Value>)
    ensures r.Accepted? <==> |input| <= MAX_INPUT && Accepts(schema, DescOf(schema, target), input, 0)
    ensures r.Accepted? ==> r.value == Ref(schema, DescOf(schema, target), input)
    ensures r.Faulted? ==> if |input| > MAX_INPUT then r.fault == InputTooLarge
                           else BodyFault(schema, DescOf(schema, target), input, 0, None, r.fault)
  {
    hide Ref, Accepts, BodyFault;
    if |input| > MAX_INPUT {
      return Faulted(InputTooLarge);
    }
    r := DecodeBody(schema, DescOf(schema, target), input, 0, None);
  }

  // ---- the report is determined --------------------------------------------------------------

  lemma TagMoves(body: seq<bv8>, p: nat)
    requires p < |body|
    ensures TagAt(body, p, |body|).Done? ==> p < TagAt(body, p, |body|).next <= |body|
  {
  }

  /** No two required fields have the same place. */
  ghost predicate Ordered(desc: Desc)
  {
    forall n, m :: Before(desc, n, m) && Before(desc, m, n) ==> n == m
  }

  ghost predicate AllOrdered(schema: Schema) { forall t :: t in schema ==> Ordered(schema[t]) }

  /** One body has one report. */
  lemma {:induction false} OneFault(schema: Schema, desc: Desc, body: seq<bv8>, depth: nat, owner: Option<nat>, f: Fault, g: Fault)
    requires AllOrdered(schema) && Ordered(desc)
    requires BodyFault(schema, desc, body, depth, owner, f) && BodyFault(schema, desc, body, depth, owner, g)
    ensures f == g
    decreases |body|, 3
  {
    hide FaultFrom;
    OneFrom(schema, desc, body, 0, [], depth, owner, f, g);
  }

  lemma {:induction false} OneFrom(schema: Schema, desc: Desc, body: seq<bv8>, p: nat, rs: seq<Record>, depth: nat,
                                   owner: Option<nat>, f: Fault, g: Fault)
    requires p <= |body| && AllOrdered(schema) && Ordered(desc)
    requires FaultFrom(schema, desc, body, p, rs, depth, owner, f) && FaultFrom(schema, desc, body, p, rs, depth, owner, g)
    ensures f == g
    decreases |body|, 2, |body| - p
  {
    hide TagAt, ValueAt, Guarded, RecordOk, Takes, RecordFault, FailAt, Missing, Ordered;
    if p == |body| {
      OneMissing(desc, rs, f.number, g.number);
    } else if TagAt(body, p, |body|).Done? {
      TagMoves(body, p);
      var tag, at := TagAt(body, p, |body|).value, TagAt(body, p, |body|).next;
      if !Guarded(desc, tag, rs) && ValueAt(body, at, tag).Done? {
        var v := ValueAt(body, at, tag);
        var r := RecordOf(tag, v.value);
        if RecordOk(schema, desc, r, depth) {
          OneFrom(schema, desc, body, v.next, rs + [r], depth, owner, f, g);
        } else {
          NotOkIsHit(schema, desc, r, depth);
          OneInRecord(schema, desc, r, depth, f, g);
        }
      }
    }
  }

  lemma OneMissing(desc: Desc, rs: seq<Record>, n: nat, m: nat)
    requires Ordered(desc) && Missing(desc, rs, n) && Missing(desc, rs, m)
    ensures n == m
  {
    assert Before(desc, n, m) && Before(desc, m, n);
  }

  lemma NotOkIsHit(schema: Schema, desc: Desc, r: Record, depth: nat)
    requires !RecordOk(schema, desc, r, depth)
    ensures Hit(desc, r.number, r)
  {
  }

  lemma {:induction false} OneInRecord(schema: Schema, desc: Desc, r: Record, depth: nat, f: Fault, g: Fault)
    requires AllOrdered(schema) && Hit(desc, r.number, r)
    requires RecordFault(schema, desc, r, depth, f) && RecordFault(schema, desc, r, depth, g)
    ensures f == g
    decreases |BytesOf(r.val)|, 5
  {
    hide BodyFault, Takes;
    match desc[r.number]
    case Single(k, _) => OneInValue(schema, k, r.val, depth, f, g);
    case Member(_, k) => OneInValue(schema, k, r.val, depth, f, g);
    case Repeated(k) => if r.wire == WireFor(k) { OneInValue(schema, k, r.val, depth, f, g); }
    case MapOf(key, entry) => OneFault(schema, EntryDesc(key, entry), BytesOf(r.val), depth, Some(r.number), f, g);
  }

  lemma {:induction false} OneInValue(schema: Schema, k: Kind, v: Val, depth: nat, f: Fault, g: Fault)
    requires AllOrdered(schema) && ValueFault(schema, k, v, depth, f) && ValueFault(schema, k, v, depth, g)
    ensures f == g
    decreases |BytesOf(v)|, 4
  {
    hide BodyFault;
    if depth < MAX_DECODE_DEPTH {
      OneFault(schema, DescOf(schema, k.target), BytesOf(v), depth + 1, None, f, g);
    }
  }

  /** And only what is not accepted is reported. */
  lemma FaultRefuses(schema: Schema, desc: Desc, body: seq<bv8>, depth: nat, owner: Option<nat>, f: Fault)
    requires BodyFault(schema, desc, body, depth, owner, f)
    ensures !Accepts(schema, desc, body, depth)
  {
    assert Reading(schema, desc, body, depth, owner, 0, [], RefMsg(schema, desc, [], |body|)) by { hide RefMsg; }
    hide Reading, Accepts, FaultFrom, RefMsg;
    FaultFromRefuses(schema, desc, body, depth, owner, 0, [], RefMsg(schema, desc, [], |body|), f);
  }

  lemma {:induction false} FaultFromRefuses(schema: Schema, desc: Desc, body: seq<bv8>, depth: nat, owner: Option<nat>,
                                            p: nat, rs: seq<Record>, out: Value, f: Fault)
    requires p <= |body| && Reading(schema, desc, body, depth, owner, p, rs, out)
    requires FaultFrom(schema, desc, body, p, rs, depth, owner, f)
    ensures !Accepts(schema, desc, body, depth)
    decreases |body| - p
  {
    hide Reading, TagAt, ValueAt, Repeats, RecordOk, Takes, RecordFault, FailAt, RefMsg, Accepts, BodyFault, RequiredPresent;
    if p == |body| {
      AtEndAccepts(schema, desc, body, depth, owner, rs, out);
      MissingIsNotPresent(desc, rs, f.number);
    } else if TagAt(body, p, |body|).Fail? {
      BadTagRefuses(schema, desc, body, depth, owner, p, rs, out);
    } else {
      TagMoves(body, p);
      var tag, at := TagAt(body, p, |body|).value, TagAt(body, p, |body|).next;
      var v := ValueAt(body, at, tag);
      if v.Done? && !Refused(schema, desc, rs, RecordOf(tag, v.value), depth) {
        var r := RecordOf(tag, v.value);
        Weighs(schema, desc, body, depth, owner, p, rs, out, tag, at);
        var next := RefMsg(schema, desc, rs + [r], |body|);
        FaultPasses(schema, desc, body, depth, owner, p, rs, tag, at, f);
        StepReads(schema, desc, body, depth, owner, p, rs, out, tag, at, r, next);
        FaultFromRefuses(schema, desc, body, depth, owner, v.next, rs + [r], next, f);
      } else {
        StepRefuses(schema, desc, body, depth, owner, p, rs, out, tag, at, f);
      }
    }
  }

  lemma MissingIsNotPresent(desc: Desc, rs: seq<Record>, n: nat)
    requires Missing(desc, rs, n)
    ensures !RequiredPresent(desc, rs)
  {
  }

  lemma Weighs(schema: Schema, desc: Desc, body: seq<bv8>, depth: nat, owner: Option<nat>, p: nat, rs: seq<Record>,
               out: Value, tag: Tag, at: nat)
    requires p < |body| && Reading(schema, desc, body, depth, owner, p, rs, out)
    requires TagAt(body, p, |body|) == Done(tag, at) && ValueAt(body, at, tag).Done?
    ensures Weight(rs + [RecordOf(tag, ValueAt(body, at, tag).value)]) <= |body|
  {
    hide TagAt, ValueAt;
    GatherStep(body, p, rs, tag, at);
  }

  // ---- map lookup ----------------------------------------------------------------------------

  /** A decoded map entry: a message with a slot for the key and one for the value. */
  ghost predicate IsEntry(v: Value)
  {
    v.Msg? && v.fields.Keys == {1, 2}
  }

  lemma EntryPlain(key: Kind, entry: Kind)
    ensures Plain(EntryDesc(key, entry)) == {1, 2}
  {
  }

  lemma EntryIs(schema: Schema, key: Kind, entry: Kind, body: seq<bv8>, depth: nat)
    requires Accepts(schema, EntryDesc(key, entry), body, depth)
    ensures IsEntry(Ref(schema, EntryDesc(key, entry), body))
  {
    hide NoMerge, AllOk, RequiredPresent, RefSlot, RefHeld;
    EntryPlain(key, entry);
  }

  lemma {:induction false} ManyAreEntries(schema: Schema, desc: Desc, n: nat, rs: seq<Record>, depth: nat, limit: nat)
    requires n in desc && desc[n].MapOf? && Weight(rs) <= limit && AllOk(schema, desc, rs, depth, limit)
    ensures forall v :: v in RefMany(schema, desc, n, rs, limit) ==> IsEntry(v)
    decreases |rs|
  {
    hide IsEntry, Ref, Accepts;
    if rs != [] {
      ManyAreEntries(schema, desc, n, rs[..|rs| - 1], depth, limit);
      var r := rs[|rs| - 1];
      if Hit(desc, n, r) {
        assert RecordOk(schema, desc, r, depth);
        EntryIs(schema, desc[n].key, desc[n].entry, BytesOf(r.val), depth);
      }
    }
  }

  /** What the decoder leaves in a map field is a list of entries. */
  lemma MapFieldIsEntries(schema: Schema, desc: Desc, body: seq<bv8>, depth: nat, n: nat)
    requires Accepts(schema, desc, body, depth) && n in desc && desc[n].MapOf?
    ensures var out := Ref(schema, desc, body);
            && out.Msg? && n in out.fields && out.fields[n].Many?
            && forall v :: v in out.fields[n].values ==> IsEntry(v)
  {
    hide IsEntry, NoMerge, RequiredPresent, RefMany, RefMsg, AllOk;
    var rs := Gather(body, 0, []).value;
    ManyAreEntries(schema, desc, n, rs, depth, |body|);
    MapSlot(schema, desc, n, rs, |body|);
  }

  lemma MapSlot(schema: Schema, desc: Desc, n: nat, rs: seq<Record>, limit: nat)
    requires n in desc && desc[n].MapOf? && Weight(rs) <= limit
    ensures var out := RefMsg(schema, desc, rs, limit);
            out.Msg? && n in out.fields && out.fields[n] == Many(RefMany(schema, desc, n, rs, limit))
  {
    hide RefMany, RefHeld;
    assert n in Plain(desc);
  }

  datatype KeyType =
    | Int32Key | UInt32Key | SInt32Key | Int64Key | UInt64Key | SInt64Key | BoolKey
    | Fixed32Key | Fixed64Key | StringKey

  /** A key in its own type: the bits of an integer, a bool, or the bytes of a string or fixed-width integer. */
  datatype Key = Word(bits: bv64) | Flag(b: bool) | Bytes(bytes: seq<bv8>)

  function Low32(n: bv64): bv64 { n & 0xFFFF_FFFF }

  function ZigZag32(n: bv64): bv64 { Low32((n >> 1) ^ (0 - (n & 1))) }

  function ZigZag64(n: bv64): bv64 { (n >> 1) ^ (0 - (n & 1)) }

  /** The wire value converted to the key's type, which narrows a 32-bit one. */
  function TypedKey(t: KeyType, v: Val): Key
  {
    var n := if v.Num? then v.n else 0;
    match t
    case Int32Key => Word(Low32(n))
    case UInt32Key => Word(Low32(n))
    case SInt32Key => Word(ZigZag32(Low32(n)))
    case Int64Key => Word(n)
    case UInt64Key => Word(n)
    case SInt64Key => Word(ZigZag64(n))
    case BoolKey => Flag(n != 0)
    case _ => Bytes(BytesOf(v))
  }

  function ZeroOf(t: KeyType): Val
  {
    match t
    case Fixed32Key => Blob([0, 0, 0, 0])
    case Fixed64Key => Blob([0, 0, 0, 0, 0, 0, 0, 0])
    case StringKey => Blob([])
    case _ => Num(0)
  }

  lemma ZigZagApart(a: bv64, b: bv64)
    ensures ZigZag64(a) == ZigZag64(b) <==> a == b
    ensures ZigZag32(Low32(a)) == ZigZag32(Low32(b)) <==> Low32(a) == Low32(b)
  {
  }

  /** Two varints are one key exactly when they agree in the bits the type has: the low 32, all 64, or being zero. */
  lemma SameKey(t: KeyType, a: bv64, b: bv64)
    requires !t.Fixed32Key? && !t.Fixed64Key? && !t.StringKey?
    ensures TypedKey(t, Num(a)) == TypedKey(t, Num(b)) <==>
              match t
              case BoolKey => (a == 0 <==> b == 0)
              case Int64Key => a == b
              case UInt64Key => a == b
              case SInt64Key => a == b
              case _ => Low32(a) == Low32(b)
  {
    hide Low32, ZigZag32, ZigZag64;
    ZigZagApart(a, b);
  }

  /** An entry's key; one that was not on the wire is the type's zero. */
  function KeyOf(t: KeyType, e: Value): Key
  {
    TypedKey(t, if e.Msg? && 1 in e.fields && e.fields[1].One? && e.fields[1].value.Simple? then e.fields[1].value.val
                else ZeroOf(t))
  }

  /** A map field's meaning: the entries inserted one after another, each replacing one with its key. */
  ghost function AsMap(t: KeyType, entries: seq<Value>): map<Key, Value>
  {
    if entries == [] then map[]
    else
      var last := entries[|entries| - 1];
      AsMap(t, entries[..|entries| - 1])[KeyOf(t, last) := last]
  }

  /** Scans every entry of a decoded map field and keeps the last hit, so a duplicate key takes its last entry; the end
    * is the miss. */
  method Find(t: KeyType, entries: seq<Value>, key: Key) returns (hit: nat)
    ensures hit <= |entries|
    ensures hit == |entries| <==> key !in AsMap(t, entries)
    ensures hit < |entries| ==> KeyOf(t, entries[hit]) == key && entries[hit] == AsMap(t, entries)[key]
    ensures forall i :: hit < i < |entries| ==> KeyOf(t, entries[i]) != key
  {
    hide KeyOf;
    hit := |entries|;
    var i := 0;
    while i < |entries|
      invariant 0 <= i <= |entries|
      invariant hit < i || hit == |entries|
      invariant hit == |entries| <==> key !in AsMap(t, entries[..i])
      invariant hit < |entries| ==>
                  KeyOf(t, entries[hit]) == key && entries[hit] == AsMap(t, entries[..i])[key]
      invariant forall k :: hit < k < i ==> KeyOf(t, entries[k]) != key
    {
      assert entries[..i + 1][..i] == entries[..i];
      if KeyOf(t, entries[i]) == key {
        hit := i;
      }
      i := i + 1;
    }
    assert entries[..|entries|] == entries;
  }
}
