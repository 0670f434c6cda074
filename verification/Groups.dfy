/** Tags, field skipping and group bodies: the mutually recursive skipper against parse trees of nested groups. */
module Groups {
  import opened Varint
  import Words

  // ---- tags ----------------------------------------------------------------------------------

  datatype WireType = WVarint | I64 | Len | SGroup | EGroup | I32

  datatype Tag = Tag(field: bv64, wire: WireType)

  const MAX_FIELD_NUMBER: bv64 := 0x1FFFFFFF
  const MAX_GROUP_DEPTH: nat := 100

  function FieldOf(raw: bv64): bv64 { raw >> 3 }

  /** The low three bits; 6 and 7 are reserved and name no wire type. */
  predicate Reserved(raw: bv64) { raw & 7 == 6 || raw & 7 == 7 }

  function WireOf(raw: bv64): WireType {
    var w := raw & 7;
    if w == 0 then WVarint else if w == 1 then I64 else if w == 2 then Len
    else if w == 3 then SGroup else if w == 4 then EGroup else I32
  }

  predicate BadField(raw: bv64) { FieldOf(raw) == 0 }

  predicate HugeField(raw: bv64) { FieldOf(raw) > MAX_FIELD_NUMBER }

  /** What a tag read at p must yield: the whole varint, then the three rejections in order. */
  function TagAt(buf: seq<bv8>, p: nat, end: nat): (r: Read<Tag>)
    requires p <= end <= |buf|
    ensures r.Done? ==> p < r.next <= end
  {
    match VarintAt(buf, p, end)
    case Fail(e) => Fail(e)
    case Done(raw, next) =>
      if BadField(raw) then Fail(InvalidFieldNumber)
      else if HugeField(raw) then Fail(FieldNumberRange)
      else if Reserved(raw) then Fail(ReservedWireType)
      else Done(Tag(FieldOf(raw), WireOf(raw)), next)
  }

  function Wide(b: bv8): bv64 { b as bv64 }

  /** The reader with the fused one-byte path. */
  function ReadTag(buf: seq<bv8>, p: nat, end: nat): Read<Tag>
    requires p <= end <= |buf|
  {
    if p < end && !Continues(buf[p]) && !BadField(Wide(buf[p])) && !Reserved(Wide(buf[p])) then
      Done(Tag(FieldOf(Wide(buf[p])), WireOf(Wide(buf[p]))), p + 1)
    else
      TagAt(buf, p, end)
  }

  lemma SmallTag(b: bv8)
    requires !Continues(b)
    ensures !HugeField(Wide(b))
  {
  }

  /** The fast path changes nothing. */
  lemma ReadTagIsTagAt(buf: seq<bv8>, p: nat, end: nat)
    requires p <= end <= |buf|
    ensures ReadTag(buf, p, end) == TagAt(buf, p, end)
  {
    hide Continues, BadField, HugeField, Reserved, FieldOf, WireOf, Base128;
    if p < end && !Continues(buf[p]) {
      VarintIs(buf, p, end, 0);
      OneByte(buf, p);
      SmallTag(buf[p]);
    }
  }

  datatype TagState = GotTag(tag: Tag, next: nat) | AtEnd | BadTag(error: WireError)

  /** The second byte terminates and is not zero. */
  predicate SecondByteFits(b: bv8) { b - 1 < 0x7F }

  function TwoByteValue(b0: bv8, b1: bv8): bv64 { (b0 as bv64 & 0x7F) | (b1 as bv64 << 7) }

  /** The decode loops' reader: one- and two-byte paths fused with the end test. */
  function ReadTagOrEnd(buf: seq<bv8>, p: nat, end: nat): TagState
    requires p <= end <= |buf|
  {
    if p >= end then AtEnd
    else if !Continues(buf[p]) && !BadField(Wide(buf[p])) && !Reserved(Wide(buf[p])) then
      GotTag(Tag(FieldOf(Wide(buf[p])), WireOf(Wide(buf[p]))), p + 1)
    else if Continues(buf[p]) && end - p >= 2 && SecondByteFits(buf[p + 1])
            && !Reserved(TwoByteValue(buf[p], buf[p + 1])) then
      GotTag(Tag(FieldOf(TwoByteValue(buf[p], buf[p + 1])), WireOf(TwoByteValue(buf[p], buf[p + 1]))), p + 2)
    else
      match ReadTag(buf, p, end)
      case Done(tag, next) => GotTag(tag, next)
      case Fail(e) => BadTag(e)
  }

  lemma TwoByteTag(b0: bv8, b1: bv8)
    requires SecondByteFits(b1)
    ensures !Continues(b1)
    ensures TwoByteValue(b0, b1) == Join(Low7(b0), Up7(Join(Low7(b1), Up7(0))))
    ensures Continues(b0) ==> !BadField(TwoByteValue(b0, b1)) && !HugeField(TwoByteValue(b0, b1))
  {
  }

  lemma ReadTagOrEndIsTagAt(buf: seq<bv8>, p: nat, end: nat)
    requires p <= end <= |buf|
    ensures ReadTagOrEnd(buf, p, end) ==
              if p == end then AtEnd else
                match TagAt(buf, p, end) case Done(tag, next) => GotTag(tag, next) case Fail(e) => BadTag(e)
  {
    hide Continues, BadField, HugeField, Reserved, FieldOf, WireOf, SecondByteFits, TwoByteValue, Join, Up7, Low7;
    ReadTagIsTagAt(buf, p, end);
    if p < end && !Continues(buf[p]) {
      VarintIs(buf, p, end, 0);
      OneByte(buf, p);
      SmallTag(buf[p]);
    } else if end - p >= 2 && SecondByteFits(buf[p + 1]) {
      TwoByteTag(buf[p], buf[p + 1]);
      VarintIs(buf, p, end, 1);
      assert Base128(buf, p + 1, 1) == Join(Low7(buf[p + 1]), Up7(Base128(buf, p + 2, 0)));
    }
  }

  // ---- tags in plain integers ----------------------------------------------------------------

  /** The number of a wire type on the wire. */
  function WireCode(w: WireType): nat {
    match w case WVarint => 0 case I64 => 1 case Len => 2 case SGroup => 3 case EGroup => 4 case I32 => 5
  }

  function LowByte(raw: bv64): bv8 { (raw & 7) as bv8 }

  lemma Recombined(raw: bv64)
    ensures FieldOf(raw) < 0x2000_0000_0000_0000 && raw == (FieldOf(raw) << 3) | ((LowByte(raw) & 7) as bv64)
  {
  }

  lemma LowIsWire(raw: bv64)
    ensures Reserved(raw) <==> LowByte(raw) as nat % 8 >= 6
    ensures !Reserved(raw) ==> WireCode(WireOf(raw)) == LowByte(raw) as nat % 8
  {
    var b := LowByte(raw);
    assert raw & 7 == b as bv64 && b < 8;
    assert b == 0 || b == 1 || b == 2 || b == 3 || b == 4 || b == 5 || b == 6 || b == 7;
  }

  lemma BadIs(raw: bv64)
    ensures BadField(raw) <==> FieldOf(raw) as nat == 0
  {
    hide FieldOf;
    Words.ZeroIs(FieldOf(raw));
  }

  lemma HugeIs(raw: bv64)
    ensures HugeField(raw) <==> FieldOf(raw) as nat >= 0x2000_0000
  {
    hide FieldOf;
    assert FieldOf(raw) > MAX_FIELD_NUMBER <==> !(FieldOf(raw) < 0x2000_0000);
    Words.Below29(FieldOf(raw));
  }

  /** A tag's number split by 8 into a field number from 1 to 2^29 - 1 and the code of a wire type, with the three
    * rejections in their order. */
  predicate IsTagOf(n: nat, next: nat, r: Read<Tag>)
  {
    if n / 8 == 0 then r == Fail(InvalidFieldNumber)
    else if n / 8 >= 0x2000_0000 then r == Fail(FieldNumberRange)
    else if n % 8 >= 6 then r == Fail(ReservedWireType)
    else r.Done? && r.next == next && r.value.field as nat == n / 8 && WireCode(r.value.wire) == n % 8
  }

  function TagFrom(raw: bv64, next: nat): Read<Tag>
  {
    if BadField(raw) then Fail(InvalidFieldNumber)
    else if HugeField(raw) then Fail(FieldNumberRange)
    else if Reserved(raw) then Fail(ReservedWireType)
    else Done(Tag(FieldOf(raw), WireOf(raw)), next)
  }

  lemma TagOfParts(n: nat, field: nat, code: nat, next: nat, tag: Tag)
    requires n == 8 * field + code && code < 8
    ensures field == 0 ==> IsTagOf(n, next, Fail(InvalidFieldNumber))
    ensures field >= 0x2000_0000 ==> IsTagOf(n, next, Fail(FieldNumberRange))
    ensures 0 < field < 0x2000_0000 && code >= 6 ==> IsTagOf(n, next, Fail(ReservedWireType))
    ensures 0 < field < 0x2000_0000 && code < 6 && tag.field as nat == field && WireCode(tag.wire) == code ==>
              IsTagOf(n, next, Done(tag, next))
  {
    assert n / 8 == field && n % 8 == code;
  }

  lemma TagFromIs(raw: bv64, next: nat)
    ensures IsTagOf(raw as nat, next, TagFrom(raw, next))
  {
    hide LowByte, FieldOf, Reserved, WireOf, BadField, HugeField, IsTagOf, WireCode;
    Recombined(raw);
    Words.ThreeBits(FieldOf(raw), LowByte(raw));
    LowIsWire(raw);
    BadIs(raw);
    HugeIs(raw);
    TagOfParts(raw as nat, FieldOf(raw) as nat, LowByte(raw) as nat % 8, next, Tag(FieldOf(raw), WireOf(raw)));
  }

  /** What reading a tag yields: the varint's error, or the tag its number stands for. */
  lemma TagMeans(buf: seq<bv8>, p: nat, end: nat)
    requires p <= end <= |buf|
    ensures match VarintAt(buf, p, end)
            case Fail(e) => TagAt(buf, p, end) == Fail(e)
            case Done(raw, next) => IsTagOf(raw as nat, next, TagAt(buf, p, end))
  {
    hide VarintAt, BadField, HugeField, Reserved, FieldOf, WireOf, IsTagOf;
    if VarintAt(buf, p, end).Done? {
      TagFromIs(VarintAt(buf, p, end).value, VarintAt(buf, p, end).next);
    }
  }

  lemma TagLocal(buf: seq<bv8>, p: nat, end: nat, end': nat)
    requires p <= end <= |buf| && end' <= |buf|
    requires TagAt(buf, p, end).Done? && TagAt(buf, p, end).next <= end'
    ensures TagAt(buf, p, end') == TagAt(buf, p, end)
  {
    hide VarintAt, BadField, HugeField, Reserved, FieldOf, WireOf;
    VarintLocal(buf, p, end, end');
  }

  // ---- leaf values ---------------------------------------------------------------------------

  predicate IsGroupWire(w: WireType) { w == SGroup || w == EGroup }

  /** The cursor past a non-group value at p. */
  function LeafAt(buf: seq<bv8>, p: nat, end: nat, w: WireType): (r: Read<()>)
    requires p <= end <= |buf| && !IsGroupWire(w)
    ensures r.Done? ==> p < r.next <= end
  {
    if w == WVarint then
      match VarintAt(buf, p, end) case Done(_, next) => Done((), next) case Fail(e) => Fail(e)
    else if w == I64 then
      if end - p < 8 then Fail(TruncatedI64) else Done((), p + 8)
    else if w == I32 then
      if end - p < 4 then Fail(TruncatedI32) else Done((), p + 4)
    else
      match VarintAt(buf, p, end)
      case Fail(e) => Fail(e)
      case Done(len, next) => if len as nat > end - next then Fail(LengthExceedsBuffer) else Done((), next + len as nat)
  }

  lemma LeafLocal(buf: seq<bv8>, p: nat, end: nat, end': nat, w: WireType)
    requires p <= end <= |buf| && end' <= |buf| && !IsGroupWire(w)
    requires LeafAt(buf, p, end, w).Done? && LeafAt(buf, p, end, w).next <= end'
    ensures LeafAt(buf, p, end', w) == LeafAt(buf, p, end, w)
  {
    hide VarintAt;
    if w == WVarint || w == Len {
      VarintLocal(buf, p, end, end');
    }
  }

  // ---- the skipper ---------------------------------------------------------------------------

  /** Past the value, or the error with the offset (from the start of buf) at which it arose. */
  datatype Skip = Past(next: nat) | Bad(error: WireError, offset: nat)

  /** Past a group's end tag, which starts at egroup. */
  datatype Scan = Closed(egroup: nat, next: nat) | Broken(error: WireError, offset: nat)

  ghost function SkipSpec(buf: seq<bv8>, p: nat, end: nat, tag: Tag, depth: nat): (r: Skip)
    requires p <= end <= |buf|
    ensures r.Past? ==> p <= r.next <= end
    ensures r.Bad? ==> p <= r.offset <= end
    decreases end - p, 1
  {
    match tag.wire
    case SGroup =>
      (match ScanSpec(buf, p, end, tag.field, depth + 1)
       case Closed(_, next) => Past(next)
       case Broken(e, off) => Bad(e, off))
    case EGroup => Bad(UnexpectedEndGroup, p)
    case _ =>
      match LeafAt(buf, p, end, tag.wire)
      case Done(_, next) => Past(next)
      case Fail(e) => Bad(e, p)
  }

  ghost function ScanSpec(buf: seq<bv8>, p: nat, end: nat, field: bv64, depth: nat): (r: Scan)
    requires p <= end <= |buf|
    ensures r.Closed? ==> p <= r.egroup < r.next <= end
    ensures r.Broken? ==> p <= r.offset <= end
    decreases end - p, 0
  {
    if depth > MAX_GROUP_DEPTH then Broken(GroupTooDeep, p)
    else if p == end then Broken(UnterminatedGroup, p)
    else
      match TagAt(buf, p, end)
      case Fail(e) => Broken(e, p)
      case Done(tag, next) =>
        if tag.wire == EGroup then
          if tag.field == field then Closed(p, next) else Broken(EndGroupMismatch, p)
        else
          match SkipSpec(buf, next, end, tag, depth)
          case Bad(e, off) => Broken(e, off)
          case Past(after) => ScanSpec(buf, after, end, field, depth)
  }

  method SkipValue(buf: seq<bv8>, p: nat, end: nat, tag: Tag, depth: nat) returns (r: Skip)
    requires p <= end <= |buf|
    ensures r == SkipSpec(buf, p, end, tag, depth)
    decreases end - p, 1
  {
    match tag.wire
    case SGroup =>
      var g := ScanGroupEnd(buf, p, end, tag.field, depth + 1);
      return match g case Closed(_, next) => Past(next) case Broken(e, off) => Bad(e, off);
    case EGroup =>
      return Bad(UnexpectedEndGroup, p);
    case _ =>
      var leaf := LeafAt(buf, p, end, tag.wire);
      return match leaf case Done(_, next) => Past(next) case Fail(e) => Bad(e, p);
  }

  method ScanGroupEnd(buf: seq<bv8>, start: nat, end: nat, field: bv64, depth: nat) returns (r: Scan)
    requires start <= end <= |buf|
    ensures r == ScanSpec(buf, start, end, field, depth)
    decreases end - start, 0
  {
    if depth > MAX_GROUP_DEPTH {
      return Broken(GroupTooDeep, start);
    }
    var p := start;
    while true
      invariant start <= p <= end
      invariant ScanSpec(buf, start, end, field, depth) == ScanSpec(buf, p, end, field, depth)
      decreases end - p
    {
      var tagStart := p;
      if p >= end {
        return Broken(UnterminatedGroup, tagStart);
      }
      var t := ReadTag(buf, p, end);
      ReadTagIsTagAt(buf, p, end);
      if t.Fail? {
        return Broken(t.error, tagStart);
      }
      p := t.next;
      if t.value.wire == EGroup {
        if t.value.field != field {
          return Broken(EndGroupMismatch, tagStart);
        }
        return Closed(tagStart, p);
      }
      var v := SkipValue(buf, p, end, t.value, depth);
      if v.Bad? {
        return Broken(v.error, v.offset);
      }
      p := v.next;
    }
  }

  // ---- well-nested values --------------------------------------------------------------------

  /** The shape of a value: a leaf, or a group's items up to its end tag at egroup; next is just past it. */
  datatype Node = Leaf(next: nat) | Group(items: Items, egroup: nat, next: nat)
  datatype Items = Nil | Cons(tag: Tag, valueAt: nat, node: Node, rest: Items)

  ghost predicate IsValue(buf: seq<bv8>, end: nat, p: nat, tag: Tag, node: Node)
    requires end <= |buf|
    decreases node
  {
    p <= end &&
    match node
    case Leaf(next) => !IsGroupWire(tag.wire) && LeafAt(buf, p, end, tag.wire) == Done((), next)
    case Group(items, egroup, next) =>
      && tag.wire == SGroup && egroup <= end
      && IsItems(buf, end, p, items, egroup)
      && TagAt(buf, egroup, end) == Done(Tag(tag.field, EGroup), next)
  }

  /** A whole number of records from p to stop. */
  ghost predicate IsItems(buf: seq<bv8>, end: nat, p: nat, items: Items, stop: nat)
    requires end <= |buf|
    decreases items
  {
    if items.Nil? then p == stop else
      && p <= end
      && TagAt(buf, p, end) == Done(items.tag, items.valueAt) && items.tag.wire != EGroup
      && IsValue(buf, end, items.valueAt, items.tag, items.node)
      && IsItems(buf, end, items.node.next, items.rest, stop)
  }

  /** At most d groups are nested inside one another. */
  ghost predicate Fits(node: Node, d: int)
    decreases node
  {
    node.Group? ==> d >= 1 && FitAll(node.items, d - 1)
  }

  ghost predicate FitAll(items: Items, d: int)
    decreases items
  {
    items.Cons? ==> Fits(items.node, d) && FitAll(items.rest, d)
  }

  /** Whatever the skipper accepts is a well-nested value within the depth cap. */
  lemma {:induction false} SkipIsSound(buf: seq<bv8>, p: nat, end: nat, tag: Tag, depth: nat) returns (node: Node)
    requires p <= end <= |buf| && SkipSpec(buf, p, end, tag, depth).Past?
    ensures IsValue(buf, end, p, tag, node) && Fits(node, MAX_GROUP_DEPTH - depth)
    ensures node.next == SkipSpec(buf, p, end, tag, depth).next
    decreases end - p, 1
  {
    hide LeafAt, TagAt;
    if tag.wire == SGroup {
      var items := ScanIsSound(buf, p, end, tag.field, depth + 1);
      var g := ScanSpec(buf, p, end, tag.field, depth + 1);
      node := Group(items, g.egroup, g.next);
    } else {
      node := Leaf(SkipSpec(buf, p, end, tag, depth).next);
      assert LeafAt(buf, p, end, tag.wire).value == ();
    }
  }

  lemma {:induction false} ScanIsSound(buf: seq<bv8>, p: nat, end: nat, field: bv64, depth: nat) returns (items: Items)
    requires p <= end <= |buf| && ScanSpec(buf, p, end, field, depth).Closed?
    ensures depth <= MAX_GROUP_DEPTH && FitAll(items, MAX_GROUP_DEPTH - depth)
    ensures var g := ScanSpec(buf, p, end, field, depth);
            IsItems(buf, end, p, items, g.egroup) && TagAt(buf, g.egroup, end) == Done(Tag(field, EGroup), g.next)
    decreases end - p, 0
  {
    hide LeafAt, TagAt;
    var tag, next := TagAt(buf, p, end).value, TagAt(buf, p, end).next;
    if tag.wire == EGroup {
      items := Nil;
    } else {
      var node := SkipIsSound(buf, next, end, tag, depth);
      var rest := ScanIsSound(buf, node.next, end, field, depth);
      items := Cons(tag, next, node, rest);
    }
  }

  /** Every well-nested value within the depth cap is accepted, with the cursor just past it. */
  lemma {:induction false} SkipIsComplete(buf: seq<bv8>, p: nat, end: nat, tag: Tag, depth: nat, node: Node)
    requires p <= end <= |buf|
    requires IsValue(buf, end, p, tag, node) && Fits(node, MAX_GROUP_DEPTH - depth)
    ensures SkipSpec(buf, p, end, tag, depth) == Past(node.next)
    decreases node
  {
    hide LeafAt, TagAt;
    if node.Group? {
      ScanIsComplete(buf, p, end, tag.field, depth + 1, node.items, node.egroup, node.next);
    }
  }

  lemma {:induction false} ScanIsComplete(buf: seq<bv8>, p: nat, end: nat, field: bv64, depth: nat,
                                          items: Items, egroup: nat, next: nat)
    requires p <= end <= |buf| && egroup <= end && depth <= MAX_GROUP_DEPTH
    requires IsItems(buf, end, p, items, egroup) && FitAll(items, MAX_GROUP_DEPTH - depth)
    requires TagAt(buf, egroup, end) == Done(Tag(field, EGroup), next)
    ensures ScanSpec(buf, p, end, field, depth) == Closed(egroup, next)
    decreases items
  {
    hide LeafAt;
    if items.Cons? {
      SkipIsComplete(buf, items.valueAt, end, items.tag, depth, items.node);
      ScanIsComplete(buf, items.node.next, end, field, depth, items.rest, egroup, next);
    }
  }

  /** Acceptance, both ways: skip_value passes a value exactly when it is well nested within the cap. */
  lemma SkipAcceptsExactly(buf: seq<bv8>, p: nat, end: nat, tag: Tag, depth: nat, next: nat)
    requires p <= end <= |buf|
    ensures SkipSpec(buf, p, end, tag, depth) == Past(next) <==>
              exists node :: IsValue(buf, end, p, tag, node) && Fits(node, 100 - depth) && node.next == next
  {
    hide SkipSpec, IsValue, Fits;
    if SkipSpec(buf, p, end, tag, depth) == Past(next) {
      var node := SkipIsSound(buf, p, end, tag, depth);
    }
    forall node | IsValue(buf, end, p, tag, node) && Fits(node, MAX_GROUP_DEPTH - depth) && node.next == next
      ensures SkipSpec(buf, p, end, tag, depth) == Past(next)
    {
      SkipIsComplete(buf, p, end, tag, depth, node);
    }
  }

  // ---- what a refusal means ------------------------------------------------------------------

  /** A value of this wire type cannot be read at p, and why: a varint's own error, fewer than 8 or 4 bytes left, or a
      length past the end. */
  ghost predicate LeafFails(buf: seq<bv8>, p: nat, end: nat, w: WireType, e: WireError)
    requires p <= end <= |buf|
  {
    match w
    case WVarint => VarintAt(buf, p, end) == Fail(e)
    case I64 => end - p < 8 && e == TruncatedI64
    case I32 => end - p < 4 && e == TruncatedI32
    case Len =>
      || VarintAt(buf, p, end) == Fail(e)
      || (VarintAt(buf, p, end).Done? && VarintAt(buf, p, end).value as nat > end - VarintAt(buf, p, end).next && e == LengthExceedsBuffer)
    case _ => false
  }

  /** The error stands at the offset: a bad tag, a value that cannot be read, an end tag of no group or of another one, a
      group without an end, or one more than 100 deep. */
  ghost predicate Fault(buf: seq<bv8>, off: nat, end: nat, e: WireError)
    requires off <= end <= |buf|
  {
    || TagAt(buf, off, end) == Fail(e)
    || (exists w :: LeafFails(buf, off, end, w, e))
    || (e == EndGroupMismatch && TagAt(buf, off, end).Done? && TagAt(buf, off, end).value.wire == EGroup)
    || (e == UnterminatedGroup && off == end)
    || e == UnexpectedEndGroup || e == GroupTooDeep
  }

  lemma LeafFault(buf: seq<bv8>, p: nat, end: nat, w: WireType)
    requires p <= end <= |buf| && !IsGroupWire(w) && LeafAt(buf, p, end, w).Fail?
    ensures Fault(buf, p, end, LeafAt(buf, p, end, w).error)
  {
    hide VarintAt, TagAt;
    assert LeafFails(buf, p, end, w, LeafAt(buf, p, end, w).error);
  }

  /** Whatever the skipper refuses has a fault of that kind at that offset; an end tag is unexpected only where the value
      was to be, and nesting too deep only past 100 levels. */
  lemma {:induction false} SkipFaults(buf: seq<bv8>, p: nat, end: nat, tag: Tag, depth: nat)
    requires p <= end <= |buf| && SkipSpec(buf, p, end, tag, depth).Bad?
    ensures var r := SkipSpec(buf, p, end, tag, depth);
            && Fault(buf, r.offset, end, r.error)
            && (r.error == UnexpectedEndGroup <==> tag.wire == EGroup)
            && (r.error == GroupTooDeep ==> tag.wire == SGroup && r.offset >= p)
            && (tag.wire == SGroup && depth >= 100 ==> r == Bad(GroupTooDeep, p))
    decreases end - p, 1
  {
    hide TagAt, VarintAt, Fault;
    match tag.wire
    case SGroup => ScanFaults(buf, p, end, tag.field, depth + 1);
    case EGroup => Unexpected(buf, p, end);
    case _ =>
      LeafFault(buf, p, end, tag.wire);
      LeafErrors(buf, p, end, tag.wire);
  }

  lemma Unexpected(buf: seq<bv8>, p: nat, end: nat)
    requires p <= end <= |buf|
    ensures Fault(buf, p, end, UnexpectedEndGroup) && Fault(buf, p, end, GroupTooDeep) && Fault(buf, end, end, UnterminatedGroup)
    ensures TagAt(buf, p, end).Fail? ==> Fault(buf, p, end, TagAt(buf, p, end).error)
    ensures TagAt(buf, p, end).Done? && TagAt(buf, p, end).value.wire == EGroup ==> Fault(buf, p, end, EndGroupMismatch)
  {
    hide TagAt;
  }

  lemma LeafErrors(buf: seq<bv8>, p: nat, end: nat, w: WireType)
    requires p <= end <= |buf|
    ensures !IsGroupWire(w) && LeafAt(buf, p, end, w).Fail? ==>
              LeafAt(buf, p, end, w).error != UnexpectedEndGroup && LeafAt(buf, p, end, w).error != GroupTooDeep
    ensures TagAt(buf, p, end).Fail? ==> TagAt(buf, p, end).error != UnexpectedEndGroup && TagAt(buf, p, end).error != GroupTooDeep
  {
  }

  lemma {:induction false} ScanFaults(buf: seq<bv8>, p: nat, end: nat, field: bv64, depth: nat)
    requires p <= end <= |buf| && ScanSpec(buf, p, end, field, depth).Broken?
    ensures var r := ScanSpec(buf, p, end, field, depth);
            && Fault(buf, r.offset, end, r.error) && r.error != UnexpectedEndGroup
            && (depth > 100 ==> r == Broken(GroupTooDeep, p))
    decreases end - p, 0
  {
    hide TagAt, VarintAt, Fault, LeafAt;
    Unexpected(buf, p, end);
    LeafErrors(buf, p, end, WVarint);
    if depth <= MAX_GROUP_DEPTH && p < end && TagAt(buf, p, end).Done? {
      var tag, next := TagAt(buf, p, end).value, TagAt(buf, p, end).next;
      if tag.wire != EGroup {
        var s := SkipSpec(buf, next, end, tag, depth);
        if s.Bad? {
          SkipFaults(buf, next, end, tag, depth);
        } else {
          ScanFaults(buf, s.next, end, field, depth);
        }
      }
    }
  }

  // ---- a group body on its own ---------------------------------------------------------------

  lemma {:induction false} ItemsForward(buf: seq<bv8>, end: nat, p: nat, items: Items, stop: nat)
    requires end <= |buf| && IsItems(buf, end, p, items, stop)
    ensures p <= stop
    decreases items
  {
    hide TagAt, LeafAt;
    if items.Cons? {
      ValueForward(buf, end, items.valueAt, items.tag, items.node);
      ItemsForward(buf, end, items.node.next, items.rest, stop);
    }
  }

  lemma {:induction false} ValueForward(buf: seq<bv8>, end: nat, p: nat, tag: Tag, node: Node)
    requires end <= |buf| && IsValue(buf, end, p, tag, node)
    ensures p <= node.next <= end
    ensures node.Group? ==> p <= node.egroup < node.next
    decreases node
  {
    hide TagAt, LeafAt;
    if node.Group? {
      ItemsForward(buf, end, p, node.items, node.egroup);
    }
  }

  /** Records do not depend on what lies past their end: cutting the buffer there leaves them records. */
  lemma {:induction false} ItemsLocal(buf: seq<bv8>, end: nat, end': nat, p: nat, items: Items, stop: nat)
    requires end <= |buf| && end' <= |buf| && stop <= end' && IsItems(buf, end, p, items, stop)
    ensures IsItems(buf, end', p, items, stop)
    decreases items
  {
    hide TagAt, LeafAt;
    if items.Cons? {
      ValueForward(buf, end, items.valueAt, items.tag, items.node);
      ItemsForward(buf, end, items.node.next, items.rest, stop);
      TagLocal(buf, p, end, end');
      ValueLocal(buf, end, end', items.valueAt, items.tag, items.node);
      ItemsLocal(buf, end, end', items.node.next, items.rest, stop);
    }
  }

  lemma {:induction false} ValueLocal(buf: seq<bv8>, end: nat, end': nat, p: nat, tag: Tag, node: Node)
    requires end <= |buf| && end' <= |buf| && node.next <= end' && IsValue(buf, end, p, tag, node)
    ensures IsValue(buf, end', p, tag, node)
    decreases node
  {
    hide TagAt, LeafAt;
    ValueForward(buf, end, p, tag, node);
    if node.Group? {
      ItemsLocal(buf, end, end', p, node.items, node.egroup);
      TagLocal(buf, node.egroup, end, end');
    } else {
      LeafLocal(buf, p, end, end', tag.wire);
    }
  }

  /** The body of the group whose start tag has just been read: [p, bodyEnd), with the cursor past its end tag. */
  datatype GroupBody = Body(bodyEnd: nat, next: nat) | NoBody(error: WireError, offset: nat)

  method ReadGroup(buf: seq<bv8>, p: nat, end: nat, field: bv64) returns (r: GroupBody)
    requires p <= end <= |buf|
    ensures match ScanSpec(buf, p, end, field, 1)
            case Closed(eg, next) => r == Body(eg, next)
            case Broken(e, off) => r == NoBody(e, off)
  {
    var g := ScanGroupEnd(buf, p, end, field, 1);
    return match g case Closed(eg, next) => Body(eg, next) case Broken(e, off) => NoBody(e, off);
  }

  /** The bytes from p to end are a whole number of well-nested records. */
  ghost predicate CleanFrom(buf: seq<bv8>, end: nat, p: nat)
    requires p <= end <= |buf|
  {
    exists items :: IsItems(buf, end, p, items, end) && FitAll(items, MAX_GROUP_DEPTH)
  }

  /** How a loop over the records of [p, end) ends when every field is unknown to it. */
  datatype Walk = Clean | Stopped(error: WireError, offset: nat)

  /** The decode loop with every field skipped: read a tag or the end, skip the value at depth 0. */
  method WalkRecords(buf: seq<bv8>, start: nat, end: nat) returns (r: Walk)
    requires start <= end <= |buf|
    ensures r == Clean <==> CleanFrom(buf, end, start)
    ensures r.Stopped? ==> start <= r.offset <= end
  {
    hide TagAt, LeafAt, ReadTagOrEnd, CleanFrom, SkipSpec;
    var p := start;
    while true
      invariant start <= p <= end
      invariant CleanFrom(buf, end, start) <==> CleanFrom(buf, end, p)
      decreases end - p
    {
      var t := ReadTagOrEnd(buf, p, end);
      ReadTagOrEndIsTagAt(buf, p, end);
      CleanStep(buf, end, p);
      if t == AtEnd {
        return Clean;
      }
      if t.BadTag? {
        return Stopped(t.error, p);
      }
      var v := SkipValue(buf, t.next, end, t.tag, 0);
      if v.Bad? {
        return Stopped(v.error, v.offset);
      }
      p := v.next;
    }
  }

  lemma CleanStep(buf: seq<bv8>, end: nat, p: nat)
    requires p <= end <= |buf|
    ensures p == end ==> CleanFrom(buf, end, p)
    ensures p < end ==> (CleanFrom(buf, end, p) <==>
              && TagAt(buf, p, end).Done?
              && var t := TagAt(buf, p, end);
                 var v := SkipSpec(buf, t.next, end, t.value, 0);
                 v.Past? && CleanFrom(buf, end, v.next))
  {
    hide LeafAt, SkipSpec, Fits;
    if p == end {
      assert IsItems(buf, end, p, Nil, end) && FitAll(Nil, MAX_GROUP_DEPTH);
    } else {
      CleanStepBack(buf, end, p);
      if CleanFrom(buf, end, p) {
        var items: Items :| IsItems(buf, end, p, items, end) && FitAll(items, MAX_GROUP_DEPTH);
        SkipIsComplete(buf, items.valueAt, end, items.tag, 0, items.node);
        assert IsItems(buf, end, items.node.next, items.rest, end) && FitAll(items.rest, MAX_GROUP_DEPTH);
      }
    }
  }

  lemma CleanStepBack(buf: seq<bv8>, end: nat, p: nat)
    requires p < end <= |buf|
    ensures TagAt(buf, p, end).Done? ==>
              var t := TagAt(buf, p, end);
              var v := SkipSpec(buf, t.next, end, t.value, 0);
              v.Past? && CleanFrom(buf, end, v.next) ==> CleanFrom(buf, end, p)
  {
    hide LeafAt, TagAt;
    if TagAt(buf, p, end).Done? {
      var t := TagAt(buf, p, end);
      var v := SkipSpec(buf, t.next, end, t.value, 0);
      if v.Past? && CleanFrom(buf, end, v.next) {
        var rest: Items :| IsItems(buf, end, v.next, rest, end) && FitAll(rest, MAX_GROUP_DEPTH);
        var node := SkipIsSound(buf, t.next, end, t.value, 0);
        var items := Cons(t.value, t.next, node, rest);
        assert IsItems(buf, end, p, items, end) && FitAll(items, MAX_GROUP_DEPTH);
      }
    }
  }

  lemma {:induction false} FitMore(items: Items, d: int, d': int)
    requires FitAll(items, d) && d <= d'
    ensures FitAll(items, d')
    decreases items
  {
    if items.Cons? {
      FitMore(items.rest, d, d');
      if items.node.Group? {
        FitMore(items.node.items, d - 1, d' - 1);
      }
    }
  }

  /** A body handed out by read_group, walked alone with the end cut at its end tag, is a whole number of
      records that ends cleanly. */
  lemma GroupBodyIsClean(buf: seq<bv8>, p: nat, end: nat, field: bv64)
    requires p <= end <= |buf| && ScanSpec(buf, p, end, field, 1).Closed?
    ensures CleanFrom(buf, ScanSpec(buf, p, end, field, 1).egroup, p)
  {
    hide TagAt, LeafAt, ScanSpec;
    var g := ScanSpec(buf, p, end, field, 1);
    var items := ScanIsSound(buf, p, end, field, 1);
    ItemsLocal(buf, end, g.egroup, p, items, g.egroup);
    FitMore(items, MAX_GROUP_DEPTH - 1, MAX_GROUP_DEPTH);
  }
}
