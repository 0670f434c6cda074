/** The layout planner: a memoised recursion over message references that decides which sub-messages are
  * stored by value. References may be cyclic, and a chain of them is cut at a depth cap. */
module Planner {
  import opened Basics
  import opened Slots

  const MAX_CHAIN_DEPTH: nat := 200

  // ---------------------------------------------------------------- schema

  type Name = nat

  datatype Shape =
    | Scalar(wide: bool)
    | Bool
    | Enum
    | Str
    | Raw
    | View
    | Sub(target: Name)

  datatype Field = Field(number: int, explicit: bool, shape: Shape)

  // A map's key and value types; only a message value is looked up.
  datatype MapField = MapField(number: int, key: Shape, value: Shape)

  datatype Message = Message(fields: seq<Field>, maps: seq<MapField>, oneofs: seq<seq<Field>>, wantsUnknown: bool)

  type Schema = map<Name, Message>

  // ---------------------------------------------------------------- plans

  datatype Kind = InlineScalar | InlineEnum | BorrowString | InlineSub | PointerSub | RepeatedView | MapView | RawPayload

  // How a sub-message is stored: by value with its own extent, or behind a pointer.
  datatype Store = Inline(size: nat, align: nat) | Pointer

  datatype Member = Member(number: int, kind: Kind, size: nat, align: nat, presence: bool, valueBit: bool)

  datatype Union = Union(number: int, size: nat, align: nat)

  datatype Layout = Layout(
    members: seq<Member>, entries: seq<Extent>, unions: seq<Union>, stores: seq<Store>,
    maskBits: nat, size: nat, align: nat, fixedSize: bool)

  // ---------------------------------------------------------------- what a message refers to

  function FieldRefs(fields: seq<Field>): seq<Name>
  {
    if fields == [] then []
    else (if fields[0].shape.Sub? then [fields[0].shape.target] else []) + FieldRefs(fields[1..])
  }

  function MapRefs(maps: seq<MapField>): seq<Name>
  {
    if maps == [] then []
    else (if maps[0].value.Sub? then [maps[0].value.target] else []) + MapRefs(maps[1..])
  }

  function OneofRefs(oneofs: seq<seq<Field>>): seq<Name>
  {
    if oneofs == [] then [] else FieldRefs(oneofs[0]) + OneofRefs(oneofs[1..])
  }

  /** The message types referred to by value, in the order the planner classifies them. */
  function Refs(m: Message): seq<Name>
  {
    FieldRefs(m.fields) + MapRefs(m.maps) + OneofRefs(m.oneofs)
  }

  // ---------------------------------------------------------------- assembling a layout

  function StoreSize(s: Store): nat { if s.Inline? then s.size else 8 }
  function StoreAlign(s: Store): nat { if s.Inline? then s.align else 8 }

  /** A number is 4 or 8 bytes, aligned to its size. */
  function ScalarSize(wide: bool): nat { if wide then 8 else 4 }

  /** A member's bytes; a bool outside a union is a bit of the mask and has none. */
  function PlanField(f: Field, store: Store): Member
  {
    match f.shape
    case Scalar(wide) => Member(f.number, InlineScalar, ScalarSize(wide), ScalarSize(wide), f.explicit, false)
    case Bool => Member(f.number, InlineScalar, 0, 0, f.explicit, true)
    case Enum => Member(f.number, InlineEnum, 4, 4, f.explicit, false)
    case Str => Member(f.number, BorrowString, 12, 4, f.explicit, false)
    case Raw => Member(f.number, RawPayload, 12, 4, false, false)
    case View => Member(f.number, RepeatedView, 12, 4, false, false)
    case Sub(_) =>
      if store.Inline? then Member(f.number, InlineSub, store.size, store.align, f.explicit, false)
      else Member(f.number, PointerSub, 8, 8, false, false)
  }

  function PlanFields(fields: seq<Field>, stores: seq<Store>): (r: seq<Member>)
    requires |stores| == |FieldRefs(fields)|
    ensures |r| == |fields|
  {
    if fields == [] then []
    else if fields[0].shape.Sub? then [PlanField(fields[0], stores[0])] + PlanFields(fields[1..], stores[1..])
    else [PlanField(fields[0], Pointer)] + PlanFields(fields[1..], stores)
  }

  /** A member of a union takes bytes, a bool too. */
  function ByteSize(f: Field, store: Store): nat { if f.shape.Bool? then 1 else PlanField(f, store).size }
  function ByteAlign(f: Field, store: Store): nat { if f.shape.Bool? then 1 else PlanField(f, store).align }

  function Max(a: nat, b: nat): nat { if a > b then a else b }

  /** The greatest size and, separately, the greatest alignment of the members. */
  function UnionExtent(fields: seq<Field>, stores: seq<Store>): Extent
    requires |stores| == |FieldRefs(fields)|
  {
    if fields == [] then Extent(0, 0)
    else if fields[0].shape.Sub? then
      var rest := UnionExtent(fields[1..], stores[1..]);
      Extent(Max(rest.size, StoreSize(stores[0])), Max(rest.align, StoreAlign(stores[0])))
    else
      var rest := UnionExtent(fields[1..], stores);
      Extent(Max(rest.size, ByteSize(fields[0], Pointer)), Max(rest.align, ByteAlign(fields[0], Pointer)))
  }

  function PlanUnions(oneofs: seq<seq<Field>>, stores: seq<Store>): (r: seq<Union>)
    requires |stores| == |OneofRefs(oneofs)|
    ensures |r| == |oneofs|
  {
    if oneofs == [] then []
    else
      var n := |FieldRefs(oneofs[0])|;
      var e := UnionExtent(oneofs[0], stores[..n]);
      var number := if oneofs[0] == [] then 0 else oneofs[0][0].number;
      [Union(number, e.size, Max(e.align, 1))] + PlanUnions(oneofs[1..], stores[n..])
  }

  function ShapeSize(s: Shape): nat
  {
    match s
    case Scalar(wide) => ScalarSize(wide)
    case Bool => 1
    case Enum => 4
    case Sub(_) => 8
    case _ => 12
  }

  function ShapeAlign(s: Shape): nat
  {
    match s
    case Scalar(wide) => ScalarSize(wide)
    case Bool => 1
    case Sub(_) => 8
    case _ => 4
  }

  /** The extent of each map's key and value entry. */
  function PlanEntries(maps: seq<MapField>, stores: seq<Store>): seq<Extent>
    requires |stores| == |MapRefs(maps)|
  {
    if maps == [] then []
    else
      var key := Slot(ShapeSize(maps[0].key), ShapeAlign(maps[0].key), 0, 0);
      if maps[0].value.Sub? then
        var value := Slot(StoreSize(stores[0]), Max(StoreAlign(stores[0]), 1), 1, 1);
        [EntryExtent(key, value)] + PlanEntries(maps[1..], stores[1..])
      else
        var value := Slot(ShapeSize(maps[0].value), ShapeAlign(maps[0].value), 1, 1);
        [EntryExtent(key, value)] + PlanEntries(maps[1..], stores)
  }

  function EntryExtent(key: Slot, value: Slot): Extent
    requires key.align > 0 && value.align > 0
  {
    StructExtent([key, value])
  }

  /** The extent of a struct with these slots, ordered. */
  function StructExtent(slots: seq<Slot>): Extent
    requires forall i :: 0 <= i < |slots| ==> slots[i].align > 0
  {
    SortKeepsAligns(slots);
    ExtentOf(Sort(slots))
  }

  function CountBits(members: seq<Member>): nat
  {
    if members == [] then 0
    else (if members[0].presence then 1 else 0) + (if members[0].valueBit then 1 else 0) + CountBits(members[1..])
  }

  /** What a bit of the mask is for: the i-th member's presence or its bool value, or the unknown fields. */
  datatype Use = Presence(i: nat) | BoolValue(i: nat) | UnknownFields

  /** The bits given, by member; None is no bit. */
  datatype Bits = Bits(presence: seq<Option<nat>>, value: seq<Option<nat>>, unknown: Option<nat>, count: nat)

  predicate Needs(members: seq<Member>, wantsUnknown: bool, u: Use)
  {
    match u
    case Presence(i) => i < |members| && members[i].presence
    case BoolValue(i) => i < |members| && members[i].valueBit
    case UnknownFields => wantsUnknown
  }

  function BitOf(b: Bits, u: Use): Option<nat>
  {
    match u
    case Presence(i) => if i < |b.presence| then b.presence[i] else None
    case BoolValue(i) => if i < |b.value| then b.value[i] else None
    case UnknownFields => b.unknown
  }

  ghost predicate Given(b: Bits, n: nat)
  {
    exists u :: BitOf(b, u) == Some(n)
  }

  /** Each use that needs a bit has its own, below the count, and no bit below the count is left over. */
  ghost predicate EachItsOwn(members: seq<Member>, wantsUnknown: bool, b: Bits)
  {
    && (forall u :: Needs(members, wantsUnknown, u) <==> BitOf(b, u).Some?)
    && (forall u :: BitOf(b, u).Some? ==> BitOf(b, u).value < b.count)
    && (forall u, v :: BitOf(b, u).Some? && BitOf(b, u) == BitOf(b, v) ==> u == v)
    && (forall n :: 0 <= n < b.count ==> Given(b, n))
  }

  /** Gives the members their bits of the mask, in declaration order. */
  method AllocateBits(members: seq<Member>, wantsUnknown: bool) returns (b: Bits)
    ensures EachItsOwn(members, wantsUnknown, b)
    ensures b.count == CountBits(members) + if wantsUnknown then 1 else 0
  {
    hide EachItsOwn, CountBits;
    var presence, value, next := [], [], 0;
    NoBits();
    for i := 0 to |members|
      invariant EachItsOwn(members[..i], false, Bits(presence, value, None, next))
      invariant |presence| == |value| == i && next == CountBits(members[..i])
    {
      assert members[..i + 1] == members[..i] + [members[i]];
      OneMoreCounted(members[..i], members[i]);
      OneMoreMember(members[..i], members[i], Bits(presence, value, None, next));
      if members[i].presence {
        presence, next := presence + [Some(next)], next + 1;
      } else {
        presence := presence + [None];
      }
      if members[i].valueBit {
        value, next := value + [Some(next)], next + 1;
      } else {
        value := value + [None];
      }
    }
    assert members[..|members|] == members;
    var before := Bits(presence, value, None, next);
    if wantsUnknown {
      UnknownToo(members, before);
      b := before.(unknown := Some(next), count := next + 1);
    } else {
      b := before;
    }
  }

  lemma NoBits()
    ensures EachItsOwn([], false, Bits([], [], None, 0)) && CountBits([]) == 0
  {
  }

  lemma {:induction false} OneMoreCounted(members: seq<Member>, m: Member)
    ensures CountBits(members + [m]) == CountBits(members) + (if m.presence then 1 else 0) + if m.valueBit then 1 else 0
    decreases members
  {
    if members != [] {
      assert (members + [m])[1..] == members[1..] + [m];
      OneMoreCounted(members[1..], m);
    } else {
      assert (members + [m])[1..] == [];
    }
  }

  /** The bits with those of one more member. */
  function WithMember(b: Bits, m: Member): Bits
  {
    var p := if m.presence then 1 else 0;
    Bits(b.presence + [if m.presence then Some(b.count) else None],
         b.value + [if m.valueBit then Some(b.count + p) else None],
         b.unknown, b.count + p + if m.valueBit then 1 else 0)
  }

  lemma OneMoreMember(members: seq<Member>, m: Member, b: Bits)
    requires EachItsOwn(members, false, b) && |b.presence| == |b.value| == |members| && b.unknown.None?
    ensures EachItsOwn(members + [m], false, WithMember(b, m))
  {
    var more, k := WithMember(b, m), |members|;
    forall u ensures BitOf(more, u) == if u == Presence(k) then more.presence[k]
                                       else if u == BoolValue(k) then more.value[k] else BitOf(b, u)
    {
    }
    forall n | 0 <= n < more.count ensures Given(more, n) {
      if n < b.count {
        assert Given(b, n);
        var u :| BitOf(b, u) == Some(n);
        assert BitOf(more, u) == Some(n);
      } else if m.presence && n == b.count {
        assert BitOf(more, Presence(k)) == Some(n);
      } else {
        assert BitOf(more, BoolValue(k)) == Some(n);
      }
    }
  }

  lemma UnknownToo(members: seq<Member>, b: Bits)
    requires EachItsOwn(members, false, b) && b.unknown.None?
    ensures EachItsOwn(members, true, b.(unknown := Some(b.count), count := b.count + 1))
  {
    var more := b.(unknown := Some(b.count), count := b.count + 1);
    forall u ensures BitOf(more, u) == if u == UnknownFields then Some(b.count) else BitOf(b, u) {
    }
    forall n | 0 <= n < more.count ensures Given(more, n) {
      if n < b.count {
        assert Given(b, n);
        var u :| BitOf(b, u) == Some(n);
        assert BitOf(more, u) == Some(n);
      } else {
        assert BitOf(more, UnknownFields) == Some(n);
      }
    }
  }

  /** The mask word: the smallest of 1, 2, 4 and 8 bytes that holds the bits, else an array of 8. */
  function MaskExtent(bits: nat): (e: Extent)
    ensures bits > 0 ==> e.size * 8 >= bits && e.align in {1, 2, 4, 8} && Divides(e.align, e.size)
    ensures 0 < bits <= 64 ==> e.size == e.align && (e.size > 1 ==> e.size * 4 < bits)
    ensures bits > 64 ==> e.align == 8 && 8 * (e.size - 8) < bits
  {
    assert Times(1, 1) == 1 && Times(1, 2) == 2 && Times(1, 4) == 4 && Times(1, 8) == 8;
    if bits == 0 then Extent(0, 0)
    else if bits <= 8 then Extent(1, 1)
    else if bits <= 16 then Extent(2, 2)
    else if bits <= 32 then Extent(4, 4)
    else if bits <= 64 then Extent(8, 8)
    else
      assert Times((bits + 63) / 64, 8) == 8 * ((bits + 63) / 64);
      Extent(8 * ((bits + 63) / 64), 8)
  }

  function MemberSlots(members: seq<Member>, next: nat): (r: seq<Slot>)
    ensures forall i :: 0 <= i < |r| ==> r[i].align > 0
  {
    if members == [] then []
    else if members[0].size > 0 then
      [Slot(members[0].size, Max(members[0].align, 1), members[0].number, next)] + MemberSlots(members[1..], next + 1)
    else MemberSlots(members[1..], next)
  }

  function UnionSlots(unions: seq<Union>, next: nat): (r: seq<Slot>)
    ensures forall i :: 0 <= i < |r| ==> r[i].align > 0
  {
    if unions == [] then []
    else [Slot(1, 1, unions[0].number, next), Slot(unions[0].size, Max(unions[0].align, 1), unions[0].number, next + 1)]
         + UnionSlots(unions[1..], next + 2)
  }

  const MASK_TIEBREAK: int := 0x7fff_ffff

  /** Every slot of the struct: the members with bytes, each oneof's discriminant and union, the mask. */
  function StructSlots(members: seq<Member>, unions: seq<Union>, maskBits: nat): (r: seq<Slot>)
    ensures forall i :: 0 <= i < |r| ==> r[i].align > 0
  {
    var ms := MemberSlots(members, 0);
    var us := UnionSlots(unions, |ms|);
    var mask := MaskExtent(maskBits);
    ms + us + if maskBits == 0 then [] else [Slot(mask.size, mask.align, MASK_TIEBREAK, |ms| + |us|)]
  }

  predicate FixedKind(k: Kind) { k == InlineScalar || k == InlineEnum || k == InlineSub }

  predicate AllFixed(members: seq<Member>)
  {
    forall i :: 0 <= i < |members| ==> FixedKind(members[i].kind)
  }

  lemma SortKeepsAligns(s: seq<Slot>)
    requires forall i :: 0 <= i < |s| ==> s[i].align > 0
    ensures forall i :: 0 <= i < |Sort(s)| ==> Sort(s)[i].align > 0
  {
    forall i | 0 <= i < |Sort(s)| ensures Sort(s)[i].align > 0 {
      assert Sort(s)[i] in multiset(s);
    }
  }

  function MapMembers(maps: seq<MapField>): seq<Member>
  {
    seq(|maps|, i requires 0 <= i < |maps| => Member(maps[i].number, MapView, 12, 4, false, false))
  }

  /** The layout of a message whose references are stored this way. */
  function Assemble(m: Message, stores: seq<Store>): Layout
    requires |stores| == |Refs(m)|
  {
    var nf, nm := |FieldRefs(m.fields)|, |MapRefs(m.maps)|;
    var members := PlanFields(m.fields, stores[..nf]) + MapMembers(m.maps);
    var entries := PlanEntries(m.maps, stores[nf..nf + nm]);
    var unions := PlanUnions(m.oneofs, stores[nf + nm..]);
    var bits := CountBits(members) + if m.wantsUnknown then 1 else 0;
    var slots := StructSlots(members, unions, bits);
    var e := StructExtent(slots);
    Layout(members, entries, unions, stores, bits, e.size, e.align, m.oneofs == [] && AllFixed(members))
  }

  // ---------------------------------------------------------------- what the verdicts mean

  predicate Inlinable(l: Layout, cutoff: nat) { l.fixedSize && l.size <= cutoff }

  /** How a reference is stored when the target's layout is the one in the table. */
  function StoreIn(memo: map<Name, Layout>, cutoff: nat, t: Name): Store
  {
    if t in memo && Inlinable(memo[t], cutoff) then Inline(memo[t].size, memo[t].align) else Pointer
  }

  function StoresIn(memo: map<Name, Layout>, cutoff: nat, refs: seq<Name>): (r: seq<Store>)
    ensures |r| == |refs|
    ensures forall i :: 0 <= i < |refs| ==> r[i] == StoreIn(memo, cutoff, refs[i])
  {
    seq(|refs|, i requires 0 <= i < |refs| => StoreIn(memo, cutoff, refs[i]))
  }

  /** Every layout in the table is the one its references' final layouts call for. */
  ghost predicate Consistent(schema: Schema, cutoff: nat, memo: map<Name, Layout>)
  {
    forall m :: m in memo ==> m in schema && memo[m] == Assemble(schema[m], StoresIn(memo, cutoff, Refs(schema[m])))
  }

  /** A planned field, wherever it stands: its number; its bits, of which a bool's value is one and an explicit field's
    * presence another unless an empty view or a null pointer says it is absent; and its bytes, which only a bool has none
    * of. */
  lemma FieldsMean(fields: seq<Field>, stores: seq<Store>, i: nat)
    requires |stores| == |FieldRefs(fields)| && i < |fields|
    ensures var f, p, store := fields[i], PlanFields(fields, stores)[i], StoreAt(fields, stores, i);
            && p.number == f.number
            && (p.valueBit <==> f.shape.Bool?)
            && (p.presence <==> f.explicit && (f.shape.Scalar? || f.shape.Bool? || f.shape.Enum? || f.shape.Str? || (f.shape.Sub? && store.Inline?)))
            && (f.shape.Sub? && store.Inline? ==> p.size == store.size && p.align == store.align)
            && (!f.shape.Sub? || store.Pointer? ==> (p.size == 0 <==> f.shape.Bool?))
            && (f.shape.Scalar? ==> p.size == p.align == if f.shape.wide then 8 else 4)
  {
    PlannedAt(fields, stores, i);
  }

  /** Each map's entry has room for its key and its value. */
  lemma {:induction false} EntriesHold(maps: seq<MapField>, stores: seq<Store>, i: nat)
    requires |stores| == |MapRefs(maps)| && i < |maps|
    ensures |PlanEntries(maps, stores)| == |maps|
    ensures !maps[i].value.Sub? ==> PlanEntries(maps, stores)[i].size >= ShapeSize(maps[i].key) + ShapeSize(maps[i].value)
    ensures maps[i].value.Sub? ==>
              exists k :: 0 <= k < |stores| && PlanEntries(maps, stores)[i].size >= ShapeSize(maps[i].key) + StoreSize(stores[k])
    decreases maps
  {
    hide StructExtent, ShapeSize, StoreSize;
    EntriesCount(maps, stores);
    if i > 0 {
      var rest := if maps[0].value.Sub? then stores[1..] else stores;
      EntriesHold(maps[1..], rest, i - 1);
      if maps[i].value.Sub? {
        var k :| 0 <= k < |rest| && PlanEntries(maps[1..], rest)[i - 1].size >= ShapeSize(maps[i].key) + StoreSize(rest[k]);
        assert rest[k] == stores[if maps[0].value.Sub? then k + 1 else k];
      }
    } else {
      var key := Slot(ShapeSize(maps[0].key), ShapeAlign(maps[0].key), 0, 0);
      var value := if maps[0].value.Sub? then Slot(StoreSize(stores[0]), Max(StoreAlign(stores[0]), 1), 1, 1)
                   else Slot(ShapeSize(maps[0].value), ShapeAlign(maps[0].value), 1, 1);
      ExtentHolds([key, value]);
      TwoSum(key, value);
    }
  }

  lemma TwoSum(a: Slot, b: Slot)
    ensures Sum([a, b]) == a.size + b.size
  {
    SumFront(a, [b]);
    SumFront(b, []);
    assert [a] + [b] == [a, b] && [b] + [] == [b];
  }

  function MemberBytes(members: seq<Member>): nat
  {
    if members == [] then 0 else members[0].size + MemberBytes(members[1..])
  }

  /** Each union and the byte that says which member it holds. */
  function UnionBytes(unions: seq<Union>): nat
  {
    if unions == [] then 0 else 1 + unions[0].size + UnionBytes(unions[1..])
  }

  lemma {:induction false} SumFront(x: Slot, s: seq<Slot>)
    ensures Sum([x] + s) == x.size + Sum(s)
    decreases |s|
  {
    if s != [] {
      assert ([x] + s)[..|s|] == [x] + s[..|s| - 1];
      SumFront(x, s[..|s| - 1]);
    } else {
      assert [x] + s == [x] && [x][..0] == [];
    }
  }

  lemma {:induction false} SumJoin(s: seq<Slot>, t: seq<Slot>)
    ensures Sum(s + t) == Sum(s) + Sum(t)
    decreases |t|
  {
    if t == [] {
      assert s + t == s;
    } else {
      assert (s + t)[..|s + t| - 1] == s + t[..|t| - 1];
      SumJoin(s, t[..|t| - 1]);
    }
  }

  lemma {:induction false} MemberSum(members: seq<Member>, next: nat)
    ensures Sum(MemberSlots(members, next)) == MemberBytes(members)
    decreases members
  {
    hide Sum;
    if members != [] {
      var more := if members[0].size > 0 then next + 1 else next;
      MemberSum(members[1..], more);
      SumFront(Slot(members[0].size, Max(members[0].align, 1), members[0].number, next), MemberSlots(members[1..], more));
    } else {
      SumNone();
    }
  }

  lemma SumNone()
    ensures Sum([]) == 0
  {
  }

  lemma {:induction false} UnionSum(unions: seq<Union>, next: nat)
    ensures Sum(UnionSlots(unions, next)) == UnionBytes(unions)
    decreases unions
  {
    hide Sum;
    if unions != [] {
      var a, b := Slot(1, 1, unions[0].number, next), Slot(unions[0].size, Max(unions[0].align, 1), unions[0].number, next + 1);
      var rest := UnionSlots(unions[1..], next + 2);
      UnionSum(unions[1..], next + 2);
      SumFront(b, rest);
      SumFront(a, [b] + rest);
      assert [a, b] + rest == [a] + ([b] + rest);
    } else {
      SumNone();
    }
  }

  /** The slots of a layout are its members' bytes, its unions with their discriminants, and the mask, and the struct has
    * room for all of them. */
  lemma StructHoldsAll(m: Message, stores: seq<Store>)
    requires |stores| == |Refs(m)|
    ensures var l := Assemble(m, stores);
            && Sum(SlotsOf(l)) == MemberBytes(l.members) + UnionBytes(l.unions) + MaskExtent(l.maskBits).size
            && l.size >= MemberBytes(l.members) + UnionBytes(l.unions) + MaskExtent(l.maskBits).size
            && l.maskBits == CountBits(l.members) + (if m.wantsUnknown then 1 else 0)
            && |l.members| == |m.fields| + |m.maps| && |l.unions| == |m.oneofs| && |l.entries| == |m.maps|
  {
    hide StructExtent, Sum, PlanFields, MemberSlots, UnionSlots, MaskExtent, CountBits, MemberBytes, UnionBytes, PlanUnions;
    var l := Assemble(m, stores);
    var ms := MemberSlots(l.members, 0);
    var us := UnionSlots(l.unions, |ms|);
    MemberSum(l.members, 0);
    UnionSum(l.unions, |ms|);
    SumJoin(ms, us);
    var mask := MaskExtent(l.maskBits);
    var tail := if l.maskBits == 0 then [] else [Slot(mask.size, mask.align, MASK_TIEBREAK, |ms| + |us|)];
    SumJoin(ms + us, tail);
    TailSum(mask.size, mask.align, MASK_TIEBREAK, |ms| + |us|);
    NoMask();
    SumNone();
    assert SlotsOf(l) == ms + us + tail;
    ExtentHolds(SlotsOf(l));
    EntriesCount(m.maps, stores[|FieldRefs(m.fields)|..|FieldRefs(m.fields)| + |MapRefs(m.maps)|]);
  }

  lemma TailSum(size: nat, align: nat, tiebreak: int, out: nat)
    ensures Sum([Slot(size, align, tiebreak, out)]) == size
  {
    assert [Slot(size, align, tiebreak, out)][..0] == [];
  }

  lemma NoMask()
    ensures MaskExtent(0).size == 0
  {
  }

  lemma {:induction false} EntriesCount(maps: seq<MapField>, stores: seq<Store>)
    requires |stores| == |MapRefs(maps)|
    ensures |PlanEntries(maps, stores)| == |maps|
    decreases maps
  {
    hide EntryExtent;
    if maps != [] {
      EntriesCount(maps[1..], if maps[0].value.Sub? then stores[1..] else stores);
    }
  }

  lemma ExtentHolds(s: seq<Slot>)
    requires forall i :: 0 <= i < |s| ==> s[i].align > 0
    ensures StructExtent(s).size >= Sum(s)
  {
    hide Sum;
    SortKeepsAligns(s);
    PlacedIsAtLeastSum(Sort(s));
    SumIgnoresOrder(Sort(s), s);
  }

  /** The bytes a oneof's member needs in the union. */
  function InUnion(f: Field, store: Store): Extent { Extent(ByteSize(f, store), ByteAlign(f, store)) }

  /** The store of the i-th field's target, where it has one. */
  function StoreAt(fields: seq<Field>, stores: seq<Store>, i: nat): Store
    requires |stores| == |FieldRefs(fields)| && i < |fields|
  {
    var rest := if fields[0].shape.Sub? then stores[1..] else stores;
    if i > 0 then StoreAt(fields[1..], rest, i - 1) else if fields[0].shape.Sub? then stores[0] else Pointer
  }

  lemma UnionOfFirst(fields: seq<Field>, stores: seq<Store>)
    requires |stores| == |FieldRefs(fields)| && fields != []
    ensures var rest := if fields[0].shape.Sub? then stores[1..] else stores;
            var e, r, first := UnionExtent(fields, stores), UnionExtent(fields[1..], rest), InUnion(fields[0], StoreAt(fields, stores, 0));
            && e.size == Max(r.size, first.size) && e.align == Max(r.align, first.align)
            && forall i :: 0 < i < |fields| ==>
                 (InUnion(fields[i], StoreAt(fields, stores, i)) == InUnion(fields[1..][i - 1], StoreAt(fields[1..], rest, i - 1)))
  {
  }

  /** A union is as large as its largest member and as aligned as its most aligned one. */
  lemma {:induction false} UnionHolds(fields: seq<Field>, stores: seq<Store>)
    requires |stores| == |FieldRefs(fields)|
    ensures var e := UnionExtent(fields, stores);
            && (forall i :: 0 <= i < |fields| ==>
                  InUnion(fields[i], StoreAt(fields, stores, i)).size <= e.size && InUnion(fields[i], StoreAt(fields, stores, i)).align <= e.align)
            && (fields != [] ==>
                  && (exists i :: 0 <= i < |fields| && InUnion(fields[i], StoreAt(fields, stores, i)).size == e.size)
                  && (exists i :: 0 <= i < |fields| && InUnion(fields[i], StoreAt(fields, stores, i)).align == e.align))
    decreases fields
  {
    if fields != [] {
      UnionOfFirst(fields, stores);
      var rest := if fields[0].shape.Sub? then stores[1..] else stores;
      assert |rest| == |FieldRefs(fields[1..])|;
      assert UnionExtent([], []) == Extent(0, 0);
      hide InUnion, UnionExtent, StoreAt, FieldRefs;
      UnionHolds(fields[1..], rest);
      if fields[1..] != [] {
        var j :| 0 <= j < |fields[1..]| && InUnion(fields[1..][j], StoreAt(fields[1..], rest, j)).size == UnionExtent(fields[1..], rest).size;
        var k :| 0 <= k < |fields[1..]| && InUnion(fields[1..][k], StoreAt(fields[1..], rest, k)).align == UnionExtent(fields[1..], rest).align;
        assert InUnion(fields[j + 1], StoreAt(fields, stores, j + 1)) == InUnion(fields[1..][j], StoreAt(fields[1..], rest, j));
        assert InUnion(fields[k + 1], StoreAt(fields, stores, k + 1)) == InUnion(fields[1..][k], StoreAt(fields[1..], rest, k));
      }
    }
  }

  /** Whatever a message stores by value was finished before it. */
  ghost predicate Grounded(schema: Schema, memo: map<Name, Layout>, done: seq<Name>)
  {
    && (forall m :: m in memo <==> m in done)
    && (forall k :: 0 <= k < |done| ==> InlinesEarlier(schema, memo, done, k))
  }

  /** The k-th message stores by value only messages that stand before it, at their own extents. */
  ghost predicate InlinesEarlier(schema: Schema, memo: map<Name, Layout>, done: seq<Name>, k: nat)
    requires k < |done|
  {
    && done[k] in schema && done[k] in memo
    && var refs, stores := Refs(schema[done[k]]), memo[done[k]].stores;
       && |stores| == |refs|
       && forall i :: 0 <= i < |refs| && stores[i].Inline? ==>
            && refs[i] in done[..k] && refs[i] in memo
            && stores[i] == Inline(memo[refs[i]].size, memo[refs[i]].align) && memo[refs[i]].fixedSize
  }

  // ---------------------------------------------------------------- fixed size needs inlined references

  lemma {:induction false} FieldsFixed(fields: seq<Field>, stores: seq<Store>)
    requires |stores| == |FieldRefs(fields)| && AllFixed(PlanFields(fields, stores))
    ensures forall i :: 0 <= i < |stores| ==> stores[i].Inline?
    decreases fields
  {
    if fields != [] {
      var plans := PlanFields(fields, stores);
      assert FixedKind(plans[0].kind);
      var rest := if fields[0].shape.Sub? then stores[1..] else stores;
      assert AllFixed(PlanFields(fields[1..], rest)) by {
        forall i | 0 <= i < |plans| - 1 ensures FixedKind(PlanFields(fields[1..], rest)[i].kind) {
          assert plans[i + 1] == PlanFields(fields[1..], rest)[i];
        }
      }
      FieldsFixed(fields[1..], rest);
    }
  }

  lemma MapsAreNotFixed(members: seq<Member>, maps: seq<MapField>)
    ensures maps != [] ==> !AllFixed(members + MapMembers(maps))
  {
    if maps != [] {
      var all := members + MapMembers(maps);
      assert all[|members|].kind == MapView;
    }
  }

  /** A fixed-size message stores every message it refers to by value. */
  lemma FixedMeansInlined(m: Message, stores: seq<Store>)
    requires |stores| == |Refs(m)| && Assemble(m, stores).fixedSize
    ensures forall i :: 0 <= i < |stores| ==> stores[i].Inline?
  {
    var nf := |FieldRefs(m.fields)|;
    var plans, members := PlanFields(m.fields, stores[..nf]), Assemble(m, stores).members;
    assert AllFixed(plans) by {
      forall i | 0 <= i < |plans| ensures FixedKind(plans[i].kind) {
        assert members[i] == plans[i];
      }
    }
    MapsAreNotFixed(plans, m.maps);
    assert OneofRefs(m.oneofs) == [] && MapRefs(m.maps) == [];
    FieldsFixed(m.fields, stores[..nf]);
    assert stores == stores[..nf];
  }

  /** Only numbers, bools, enums and messages stored by value leave a message of fixed size. */
  predicate FixedShape(s: Shape) { s.Scalar? || s.Bool? || s.Enum? || s.Sub? }

  lemma {:induction false} PlannedAt(fields: seq<Field>, stores: seq<Store>, i: nat)
    requires |stores| == |FieldRefs(fields)| && i < |fields|
    ensures PlanFields(fields, stores)[i] == PlanField(fields[i], StoreAt(fields, stores, i))
    ensures fields[i].shape.Sub? ==> StoreAt(fields, stores, i) in stores
    decreases fields
  {
    hide PlanField;
    if i > 0 {
      assert fields[i] == fields[1..][i - 1];
      PlannedAt(fields[1..], if fields[0].shape.Sub? then stores[1..] else stores, i - 1);
    }
  }

  lemma FieldsFixedIf(fields: seq<Field>, stores: seq<Store>)
    requires |stores| == |FieldRefs(fields)| && forall i :: 0 <= i < |stores| ==> stores[i].Inline?
    ensures AllFixed(PlanFields(fields, stores)) <==> forall i :: 0 <= i < |fields| ==> FixedShape(fields[i].shape)
  {
    var plans := PlanFields(fields, stores);
    forall i | 0 <= i < |fields| ensures FixedKind(plans[i].kind) <==> FixedShape(fields[i].shape) {
      PlannedAt(fields, stores, i);
    }
    hide FixedShape, PlanFields, FixedKind;
  }

  /** Exactly the messages without oneofs and maps, whose fields are all numbers, bools, enums and messages, and whose
    * messages are all stored by value, are of fixed size. */
  lemma FixedExactly(m: Message, stores: seq<Store>)
    requires |stores| == |Refs(m)|
    ensures Assemble(m, stores).fixedSize <==>
              && m.oneofs == [] && m.maps == [] && (forall i :: 0 <= i < |m.fields| ==> FixedShape(m.fields[i].shape))
              && forall i :: 0 <= i < |stores| ==> stores[i].Inline?
  {
    var nf := |FieldRefs(m.fields)|;
    var plans, l := PlanFields(m.fields, stores[..nf]), Assemble(m, stores);
    if l.fixedSize {
      FixedMeansInlined(m, stores);
      MapsAreNotFixed(plans, m.maps);
    }
    if m.oneofs == [] && m.maps == [] {
      assert l.members == plans;
      assert OneofRefs(m.oneofs) == [] && MapRefs(m.maps) == [];
      assert stores[..nf] == stores;
      if forall i :: 0 <= i < |stores| ==> stores[i].Inline? {
        FieldsFixedIf(m.fields, stores);
      }
    }
  }

  /** Each reference of a planned message is stored by value exactly when its target is in the table, of fixed size and not
    * above the cutoff, and then at the target's own extent; and the message is itself of fixed size exactly when its
    * schema and those decisions make it so. */
  ghost predicate WellDecided(schema: Schema, cutoff: nat, memo: map<Name, Layout>, m: Name)
    requires m in schema && m in memo
  {
    var refs, l := Refs(schema[m]), memo[m];
    && |l.stores| == |refs|
    && (forall i :: 0 <= i < |refs| ==>
          && (l.stores[i].Inline? <==> refs[i] in memo && memo[refs[i]].fixedSize && memo[refs[i]].size <= cutoff)
          && (l.stores[i].Inline? ==> l.stores[i] == Inline(memo[refs[i]].size, memo[refs[i]].align)))
    && (l.fixedSize <==>
          && schema[m].oneofs == [] && schema[m].maps == []
          && (forall i :: 0 <= i < |schema[m].fields| ==> FixedShape(schema[m].fields[i].shape))
          && forall i :: 0 <= i < |l.stores| ==> l.stores[i].Inline?)
  }

  lemma ConsistentDecides(schema: Schema, cutoff: nat, memo: map<Name, Layout>)
    requires Consistent(schema, cutoff, memo)
    ensures forall m :: m in memo ==> m in schema && WellDecided(schema, cutoff, memo, m)
  {
    hide Assemble;
    forall m | m in memo ensures m in schema && WellDecided(schema, cutoff, memo, m) {
      var stores := StoresIn(memo, cutoff, Refs(schema[m]));
      AssembleKeepsStores(schema[m], stores);
      FixedExactly(schema[m], stores);
    }
  }

  // ---------------------------------------------------------------- one verdict for every order

  /** Two consistent tables agree on what the first one finds to be of fixed size. */
  lemma {:induction false} FixedAgrees(
    schema: Schema, cutoff: nat, memo: map<Name, Layout>, done: seq<Name>, other: map<Name, Layout>, k: nat)
    requires Consistent(schema, cutoff, memo) && Grounded(schema, memo, done)
    requires Consistent(schema, cutoff, other) && other.Keys == memo.Keys
    requires k < |done|
    ensures done[k] in memo && done[k] in other
    ensures memo[done[k]].fixedSize ==> other[done[k]] == memo[done[k]]
    decreases k
  {
    hide Assemble;
    assert InlinesEarlier(schema, memo, done, k);
    var m := done[k];
    if memo[m].fixedSize {
      var refs := Refs(schema[m]);
      var stores := StoresIn(memo, cutoff, refs);
      FixedMeansInlined(schema[m], stores);
      assert memo[m].stores == stores by { AssembleKeepsStores(schema[m], stores); }
      forall i | 0 <= i < |refs| ensures StoreIn(other, cutoff, refs[i]) == stores[i] {
        assert stores[i].Inline?;
        var j :| 0 <= j < k && done[j] == refs[i];
        FixedAgrees(schema, cutoff, memo, done, other, j);
      }
      assert StoresIn(other, cutoff, refs) == stores;
    }
  }

  lemma AssembleKeepsStores(m: Message, stores: seq<Store>)
    requires |stores| == |Refs(m)|
    ensures Assemble(m, stores).stores == stores
  {
  }

  /** However the messages were ordered, the finished tables are the same: kinds, sizes and fixed-size
    * verdicts, cyclic references included. */
  lemma OrderIndependent(
    schema: Schema, cutoff: nat, memo: map<Name, Layout>, done: seq<Name>, other: map<Name, Layout>, done': seq<Name>)
    requires Consistent(schema, cutoff, memo) && Grounded(schema, memo, done)
    requires Consistent(schema, cutoff, other) && Grounded(schema, other, done')
    requires memo.Keys == other.Keys
    ensures memo == other
  {
    hide Assemble;
    forall t ensures StoreIn(memo, cutoff, t) == StoreIn(other, cutoff, t) {
      if t in memo {
        var k :| 0 <= k < |done| && done[k] == t;
        FixedAgrees(schema, cutoff, memo, done, other, k);
        var k' :| 0 <= k' < |done'| && done'[k'] == t;
        FixedAgrees(schema, cutoff, other, done', memo, k');
      }
    }
    forall m | m in memo ensures memo[m] == other[m] {
      assert StoresIn(memo, cutoff, Refs(schema[m])) == StoresIn(other, cutoff, Refs(schema[m]));
    }
  }

  // ---------------------------------------------------------------- chains of references

  ghost predicate Refers(schema: Schema, m: Name, t: Name)
  {
    m in schema && t in Refs(schema[m])
  }

  ghost predicate ChainStep(schema: Schema, p: seq<Name>, i: int)
    requires 0 < i < |p|
  {
    Refers(schema, p[i - 1], p[i])
  }

  /** Distinct messages, each referring to the next. */
  ghost predicate IsChain(schema: Schema, p: seq<Name>)
  {
    && (forall i :: 0 <= i < |p| ==> p[i] in schema)
    && (forall i, j :: 0 <= i < j < |p| ==> p[i] != p[j])
    && (forall i :: 0 < i < |p| ==> ChainStep(schema, p, i))
  }

  ghost predicate LongChain(schema: Schema)
  {
    exists p :: IsChain(schema, p) && |p| == 201
  }

  lemma ChainGrows(schema: Schema, p: seq<Name>, t: Name)
    requires IsChain(schema, p) && t in schema && t !in p
    requires |p| > 0 ==> Refers(schema, p[|p| - 1], t)
    ensures IsChain(schema, p + [t])
  {
    var q := p + [t];
    forall i | 0 < i < |q| ensures ChainStep(schema, q, i) {
      if i < |p| {
        assert ChainStep(schema, p, i);
      }
    }
  }

  // ---------------------------------------------------------------- the table while planning

  /** Every message a finished one refers to is finished or in flight. */
  ghost predicate RefsKnown(schema: Schema, memo: map<Name, Layout>, visiting: set<Name>)
  {
    forall m, t :: m in memo && Refers(schema, m, t) && t in schema ==> t in memo || t in visiting
  }

  ghost predicate Grows(memo: map<Name, Layout>, memo': map<Name, Layout>)
  {
    forall m :: m in memo ==> m in memo' && memo'[m] == memo[m]
  }

  /** Some message finished since refers to one in flight, so the one being planned is not of fixed
    * size. */
  ghost predicate FlagsBack(schema: Schema, memo: map<Name, Layout>, memo': map<Name, Layout>, inFlight: set<Name>, flagged: bool)
  {
    forall m, t :: m in memo' && m !in memo && Refers(schema, m, t) && t in inFlight ==> flagged
  }

  /** Finishing a message leaves every other entry of the table right. */
  lemma FinishKeepsConsistent(
    schema: Schema, cutoff: nat, start: map<Name, Layout>, memo: map<Name, Layout>, visiting: set<Name>, m: Name, stores: seq<Store>)
    requires m in schema && m !in start && m !in visiting && m !in memo
    requires RefsKnown(schema, start, visiting) && Consistent(schema, cutoff, memo)
    requires stores == StoresIn(memo, cutoff, Refs(schema[m]))
    requires FlagsBack(schema, start, memo, visiting + {m}, HasPointer(stores))
    ensures Consistent(schema, cutoff, memo[m := Assemble(schema[m], stores)])
  {
    hide Assemble;
    var layout := Assemble(schema[m], stores);
    var memo' := memo[m := layout];
    if layout.fixedSize {
      FixedMeansInlined(schema[m], stores);
    }
    forall x | x in memo' ensures memo'[x] == Assemble(schema[x], StoresIn(memo', cutoff, Refs(schema[x]))) {
      var refs := Refs(schema[x]);
      forall i | 0 <= i < |refs| ensures StoreIn(memo', cutoff, refs[i]) == StoreIn(memo, cutoff, refs[i]) {
        if refs[i] == m {
          assert Refers(schema, x, m);
          if x == m {
            assert stores[i] == StoreIn(memo, cutoff, m) == Pointer;
          }
        }
      }
      assert StoresIn(memo', cutoff, refs) == StoresIn(memo, cutoff, refs);
    }
  }

  /** The references classified so far that are stored by value are finished, at their own extents. */
  ghost predicate Evidence(memo: map<Name, Layout>, refs: seq<Name>, stores: seq<Store>)
  {
    && |stores| <= |refs|
    && forall i :: 0 <= i < |stores| && stores[i].Inline? ==>
         refs[i] in memo && stores[i] == Inline(memo[refs[i]].size, memo[refs[i]].align) && memo[refs[i]].fixedSize
  }

  lemma FinishKeepsGrounded(schema: Schema, memo: map<Name, Layout>, done: seq<Name>, m: Name, stores: seq<Store>)
    requires Grounded(schema, memo, done) && m in schema && m !in memo
    requires Evidence(memo, Refs(schema[m]), stores) && |stores| == |Refs(schema[m])|
    ensures Grounded(schema, memo[m := Assemble(schema[m], stores)], done + [m])
  {
    hide Assemble;
    AssembleKeepsStores(schema[m], stores);
    var memo', done' := memo[m := Assemble(schema[m], stores)], done + [m];
    forall k | 0 <= k < |done'| ensures InlinesEarlier(schema, memo', done', k) {
      if k < |done| {
        assert InlinesEarlier(schema, memo, done, k);
        assert done'[..k] == done[..k];
      } else {
        assert done'[..k] == done;
      }
    }
  }

  // ---------------------------------------------------------------- the planner

  class Planner {
    const schema: Schema
    const cutoff: nat
    var memo: map<Name, Layout>
    var visiting: set<Name>
    ghost var done: seq<Name>
    ghost var stack: seq<Name>
    ghost var capped: bool

    constructor (schema: Schema, cutoff: nat)
      ensures Valid() && visiting == {} && memo == map[] && !capped
      ensures this.schema == schema && this.cutoff == cutoff
    {
      this.schema, this.cutoff := schema, cutoff;
      memo, visiting, done, stack, capped := map[], {}, [], [], false;
    }

    /** The messages in flight form one chain of references, and none is finished. */
    ghost predicate InFlight()
      reads this
    {
      && IsChain(schema, stack) && |stack| == |visiting| <= MAX_CHAIN_DEPTH
      && (forall m :: m in visiting <==> m in stack)
      && visiting !! memo.Keys
    }

    /** Until the depth cap cuts a chain, every finished layout is the one its references call for. */
    ghost predicate Settled()
      reads this
    {
      !capped ==> Consistent(schema, cutoff, memo) && RefsKnown(schema, memo, visiting)
    }

    ghost predicate Valid()
      reads this
    {
      && InFlight() && Settled() && Grounded(schema, memo, done)
      && (capped ==> LongChain(schema))
    }

    /** What planning further messages leaves as it was. */
    twostate predicate Advanced()
      reads this
    {
      && stack == old(stack) && visiting == old(visiting)
      && Grows(old(memo), memo) && (old(capped) ==> capped)
    }

    /** The layout of a message, from the table or computed now. */
    method LayoutFor(m: Name) returns (layout: Layout)
      requires Valid() && m in schema && m !in visiting && |stack| < MAX_CHAIN_DEPTH
      requires |stack| > 0 ==> Refers(schema, stack[|stack| - 1], m)
      modifies this
      ensures Valid() && Advanced() && m in memo && layout == memo[m]
      ensures !capped ==> FlagsBack(schema, old(memo), memo, visiting, !layout.fixedSize)
      decreases MAX_CHAIN_DEPTH - |stack|, 1
    {
      hide Consistent, RefsKnown, Grounded, IsChain;
      if m in memo {
        return memo[m];
      }
      layout := Compute(m);
    }

    /** How a reference from the message in flight is stored: a message in flight, or one past the depth
      * cap, goes behind a pointer. */
    method ClassifyMessage(t: Name) returns (store: Store)
      requires Valid() && |stack| > 0 && Refers(schema, stack[|stack| - 1], t)
      modifies this
      ensures Valid() && Advanced()
      ensures Evidence(memo, [t], [store])
      ensures !capped ==> store == StoreIn(memo, cutoff, t) && (t in schema ==> t in memo || t in visiting)
      ensures !capped ==> FlagsBack(schema, old(memo), memo, visiting, store.Pointer?)
      decreases MAX_CHAIN_DEPTH - |stack|, 2
    {
      hide Consistent, RefsKnown, Grounded, IsChain;
      if |visiting| < MAX_CHAIN_DEPTH && t !in visiting && t in schema {
        var layout := LayoutFor(t);
        if Inlinable(layout, cutoff) {
          return Inline(layout.size, layout.align);
        }
      } else if t !in visiting && t in schema {
        ChainGrows(schema, stack, t);
        capped := true;
      }
      GroundedIsKnown(schema, memo, done);
      store := Pointer;
    }

    /** Classifies the references of the message in flight, in order. */
    method ClassifyAll(m: Name) returns (stores: seq<Store>)
      requires Valid() && |stack| > 0 && stack[|stack| - 1] == m && m in schema
      modifies this
      ensures Valid() && Advanced()
      ensures |stores| == |Refs(schema[m])| && Evidence(memo, Refs(schema[m]), stores)
      ensures !capped ==> Classified(schema, cutoff, memo, visiting, Refs(schema[m]), stores)
      ensures !capped ==> FlagsBack(schema, old(memo), memo, visiting, HasPointer(stores))
      decreases MAX_CHAIN_DEPTH - |stack|, 3
    {
      hide Consistent, RefsKnown, Grounded, IsChain, Evidence, Classified, FlagsBack, HasPointer;
      var refs := Refs(schema[m]);
      stores := [];
      NoneClassified(schema, cutoff, memo, visiting, refs);
      while |stores| < |refs|
        invariant |stores| <= |refs| && Valid() && Advanced()
        invariant Evidence(memo, refs, stores)
        invariant !capped ==> Classified(schema, cutoff, memo, visiting, refs, stores)
        invariant !capped ==> FlagsBack(schema, old(memo), memo, visiting, HasPointer(stores))
      {
        ghost var before := memo;
        var k := |stores|;
        var store := ClassifyMessage(refs[k]);
        EvidenceGrows(before, memo, refs, stores, store);
        GroundedIsKnown(schema, memo, done);
        if !capped {
          ClassifiedGrows(schema, cutoff, before, memo, visiting, refs, stores, store);
          FlagsGrow(schema, old(memo), before, memo, visiting, stores, store);
        }
        stores := stores + [store];
      }
    }

    /** Plans one message: classifies its references in order, assembles the layout, and memoises it. */
    method Compute(m: Name) returns (layout: Layout)
      requires Valid() && m in schema && m !in visiting && m !in memo && |stack| < MAX_CHAIN_DEPTH
      requires |stack| > 0 ==> Refers(schema, stack[|stack| - 1], m)
      modifies this
      ensures Valid() && Advanced() && m in memo && layout == memo[m]
      ensures !capped ==> FlagsBack(schema, old(memo), memo, visiting, !layout.fixedSize)
      decreases MAX_CHAIN_DEPTH - |stack|, 0
    {
      hide Assemble, Consistent, Grounded, IsChain, RefsKnown, Evidence, Classified, FlagsBack, HasPointer;
      ghost var start, above := memo, visiting;
      Begin(m);
      var stores := ClassifyAll(m);
      layout := Assemble(schema[m], stores);
      FinishKeepsGrounded(schema, memo, done, m, stores);
      if !capped {
        Finish(schema, cutoff, start, memo, above, m, stores);
      }
      End(m, layout);
    }

    /** Puts a message in flight. */
    method Begin(m: Name)
      requires Valid() && m in schema && m !in visiting && m !in memo && |stack| < MAX_CHAIN_DEPTH
      requires |stack| > 0 ==> Refers(schema, stack[|stack| - 1], m)
      modifies this`visiting, this`stack
      ensures Valid() && visiting == old(visiting) + {m} && stack == old(stack) + [m]
      ensures !capped ==> RefsKnown(schema, memo, old(visiting)) && Consistent(schema, cutoff, memo)
    {
      hide Consistent, Grounded, IsChain;
      ChainGrows(schema, stack, m);
      visiting := visiting + {m};
      stack := stack + [m];
      forall x ensures x in visiting <==> x in stack {
        assert x in stack <==> x in old(stack) || x == m;
      }
    }

    /** Takes the message out of flight and memoises its layout. */
    method End(m: Name, layout: Layout)
      requires InFlight() && |stack| > 0 && stack[|stack| - 1] == m
      requires Grounded(schema, memo[m := layout], done + [m]) && (capped ==> LongChain(schema))
      requires !capped ==> Consistent(schema, cutoff, memo[m := layout]) && RefsKnown(schema, memo[m := layout], visiting - {m})
      modifies this`visiting, this`stack, this`memo, this`done
      ensures Valid() && visiting == old(visiting) - {m} && stack == old(stack)[..|old(stack)| - 1]
      ensures memo == old(memo)[m := layout]
    {
      hide Consistent, Grounded, RefsKnown;
      ChainShrinks(schema, stack);
      visiting := visiting - {m};
      stack := stack[..|stack| - 1];
      memo := memo[m := layout];
      done := done + [m];
      assert old(stack) == stack + [m];
      forall x ensures x in visiting <==> x in stack {
        assert x in old(stack) <==> x in stack || x == m;
      }
    }

    /** Plans every message in the order given: with no reference chain past the cap, the table is the
      * consistent one, which is the same for every order. */
    method PlanAll(order: seq<Name>) returns (layouts: seq<Layout>)
      requires Valid() && stack == [] && memo == map[] && !capped
      requires forall m :: m in order <==> m in schema
      modifies this
      ensures Grounded(schema, memo, done) && memo.Keys == schema.Keys
      ensures !LongChain(schema) ==> Consistent(schema, cutoff, memo)
      ensures !LongChain(schema) ==> forall m :: m in memo ==> m in schema && WellDecided(schema, cutoff, memo, m)
      ensures |layouts| == |order| && forall i :: 0 <= i < |order| ==> order[i] in memo && layouts[i] == memo[order[i]]
    {
      hide Consistent, RefsKnown;
      layouts := [];
      var i := 0;
      while i < |order|
        invariant 0 <= i <= |order| && |layouts| == i
        invariant Valid() && stack == []
        invariant forall k :: 0 <= k < i ==> order[k] in memo && layouts[k] == memo[order[k]]
      {
        assert order[i] in schema;
        assert visiting == {};
        var layout := LayoutFor(order[i]);
        layouts := layouts + [layout];
        i := i + 1;
      }
      GroundedIsKnown(schema, memo, done);
      if !LongChain(schema) {
        ConsistentDecides(schema, cutoff, memo);
      }
    }
  }

  // ---------------------------------------------------------------- steps of the planner

  ghost predicate HasPointer(stores: seq<Store>)
  {
    exists i :: 0 <= i < |stores| && stores[i].Pointer?
  }

  /** The stores so far are those the table calls for, and their targets are finished or in flight. */
  ghost predicate Classified(
    schema: Schema, cutoff: nat, memo: map<Name, Layout>, visiting: set<Name>, refs: seq<Name>, stores: seq<Store>)
  {
    && |stores| <= |refs|
    && forall i :: 0 <= i < |stores| ==>
         && stores[i] == StoreIn(memo, cutoff, refs[i])
         && (refs[i] in schema ==> refs[i] in memo || refs[i] in visiting)
  }

  lemma NoneClassified(schema: Schema, cutoff: nat, memo: map<Name, Layout>, visiting: set<Name>, refs: seq<Name>)
    ensures Evidence(memo, refs, []) && Classified(schema, cutoff, memo, visiting, refs, [])
    ensures FlagsBack(schema, memo, memo, visiting, HasPointer([]))
  {
  }

  lemma EvidenceGrows(memo: map<Name, Layout>, memo': map<Name, Layout>, refs: seq<Name>, stores: seq<Store>, store: Store)
    requires Grows(memo, memo') && Evidence(memo, refs, stores) && |stores| < |refs|
    requires Evidence(memo', [refs[|stores|]], [store])
    ensures Evidence(memo', refs, stores + [store])
  {
    assert [refs[|stores|]][0] == refs[|stores|] && [store][0] == store;
  }

  lemma ClassifiedGrows(
    schema: Schema, cutoff: nat, memo: map<Name, Layout>, memo': map<Name, Layout>, visiting: set<Name>,
    refs: seq<Name>, stores: seq<Store>, store: Store)
    requires Grows(memo, memo') && memo'.Keys <= schema.Keys && visiting !! memo'.Keys
    requires Classified(schema, cutoff, memo, visiting, refs, stores) && |stores| < |refs|
    requires store == StoreIn(memo', cutoff, refs[|stores|])
    requires refs[|stores|] in schema ==> refs[|stores|] in memo' || refs[|stores|] in visiting
    ensures Classified(schema, cutoff, memo', visiting, refs, stores + [store])
  {
  }

  lemma FlagsGrow(
    schema: Schema, start: map<Name, Layout>, memo: map<Name, Layout>, memo': map<Name, Layout>, inFlight: set<Name>,
    stores: seq<Store>, store: Store)
    requires FlagsBack(schema, start, memo, inFlight, HasPointer(stores))
    requires FlagsBack(schema, memo, memo', inFlight, store.Pointer?)
    ensures FlagsBack(schema, start, memo', inFlight, HasPointer(stores + [store]))
  {
    var more := stores + [store];
    if HasPointer(stores) {
      var i :| 0 <= i < |stores| && stores[i].Pointer?;
      assert more[i].Pointer?;
    }
    assert more[|stores|] == store;
  }

  lemma GroundedIsKnown(schema: Schema, memo: map<Name, Layout>, done: seq<Name>)
    requires Grounded(schema, memo, done)
    ensures memo.Keys <= schema.Keys
  {
    forall m | m in memo ensures m in schema {
      var k :| 0 <= k < |done| && done[k] == m;
      assert InlinesEarlier(schema, memo, done, k);
    }
  }

  lemma ChainShrinks(schema: Schema, p: seq<Name>)
    requires IsChain(schema, p) && |p| > 0
    ensures IsChain(schema, p[..|p| - 1])
  {
    var q := p[..|p| - 1];
    forall i | 0 < i < |q| ensures ChainStep(schema, q, i) {
      assert ChainStep(schema, p, i);
    }
  }

  /** Finishing the message in flight: the table stays right, and the flags pass on to its caller. */
  lemma Finish(
    schema: Schema, cutoff: nat, start: map<Name, Layout>, memo: map<Name, Layout>, above: set<Name>, m: Name, stores: seq<Store>)
    requires m in schema && m !in start && m !in above && m !in memo && above !! memo.Keys
    requires Grows(start, memo) && RefsKnown(schema, start, above) && RefsKnown(schema, memo, above + {m})
    requires Consistent(schema, cutoff, memo)
    requires Classified(schema, cutoff, memo, above + {m}, Refs(schema[m]), stores) && |stores| == |Refs(schema[m])|
    requires FlagsBack(schema, start, memo, above + {m}, HasPointer(stores))
    ensures var layout := Assemble(schema[m], stores);
            && Consistent(schema, cutoff, memo[m := layout]) && RefsKnown(schema, memo[m := layout], above)
            && FlagsBack(schema, start, memo[m := layout], above, !layout.fixedSize)
  {
    hide Assemble;
    assert stores == StoresIn(memo, cutoff, Refs(schema[m]));
    FinishKeepsConsistent(schema, cutoff, start, memo, above, m, stores);
    var layout := Assemble(schema[m], stores);
    if layout.fixedSize {
      FixedMeansInlined(schema[m], stores);
      assert !HasPointer(stores);
    }
  }

  // ---------------------------------------------------------------- padding comes from uneven unions

  ghost predicate WellStored(s: Store)
  {
    s.Inline? ==> IsPowerOfTwo(s.align) && Divides(s.align, s.size)
  }

  ghost predicate WellMember(m: Member)
  {
    m.size > 0 ==> IsPowerOfTwo(m.align) && Divides(m.align, m.size)
  }

  lemma KnownExtents()
    ensures IsPowerOfTwo(1) && IsPowerOfTwo(2) && IsPowerOfTwo(4) && IsPowerOfTwo(8)
    ensures Divides(1, 1) && Divides(4, 4) && Divides(8, 8) && Divides(4, 12)
  {
    assert IsPowerOfTwo(1) && IsPowerOfTwo(2) && IsPowerOfTwo(4);
    assert Times(1, 1) == 1 && Times(1, 4) == 4 && Times(1, 8) == 8 && Times(3, 4) == 12;
  }

  lemma {:induction false} FieldsAreWell(fields: seq<Field>, stores: seq<Store>, i: nat)
    requires |stores| == |FieldRefs(fields)| && i < |fields|
    requires forall k :: 0 <= k < |stores| ==> WellStored(stores[k])
    ensures WellMember(PlanFields(fields, stores)[i])
    decreases fields
  {
    hide IsPowerOfTwo, Divides;
    var rest := if fields[0].shape.Sub? then stores[1..] else stores;
    if i > 0 {
      FieldsAreWell(fields[1..], rest, i - 1);
    } else {
      FieldIsWell(fields[0], if fields[0].shape.Sub? then stores[0] else Pointer);
    }
  }

  lemma FieldIsWell(f: Field, store: Store)
    requires WellStored(store)
    ensures WellMember(PlanField(f, store))
  {
    hide IsPowerOfTwo, Divides;
    KnownExtents();
  }

  lemma {:induction false} MemberSlotsAreWell(members: seq<Member>, next: nat)
    requires forall i :: 0 <= i < |members| ==> WellMember(members[i])
    ensures WellSized(MemberSlots(members, next))
    ensures forall i :: 0 <= i < |MemberSlots(members, next)| ==> MemberSlots(members, next)[i].size > 0
    decreases members
  {
    hide IsPowerOfTwo, Divides;
    if members != [] {
      assert members[0].size > 0 ==> IsPowerOfTwo(members[0].align) && members[0].align >= 1 by {
        if members[0].size > 0 {
          assert WellMember(members[0]);
          PowerIsPositive(members[0].align);
        }
      }
      MemberSlotsAreWell(members[1..], if members[0].size > 0 then next + 1 else next);
    }
  }

  lemma PowerIsPositive(a: nat)
    requires IsPowerOfTwo(a)
    ensures a >= 1
  {
  }

  /** The slots of a finished layout, before they are ordered. */
  function SlotsOf(l: Layout): (r: seq<Slot>)
    ensures forall i :: 0 <= i < |r| ==> r[i].align > 0
  {
    StructSlots(l.members, l.unions, l.maskBits)
  }

  /** Each planned union's size is a multiple of its alignment. */
  ghost predicate EvenUnions(unions: seq<Union>)
  {
    forall i :: 0 <= i < |unions| ==> Divides(Max(unions[i].align, 1), unions[i].size)
  }

  lemma {:induction false} UnionAlign(fields: seq<Field>, stores: seq<Store>)
    requires |stores| == |FieldRefs(fields)| && forall k :: 0 <= k < |stores| ==> WellStored(stores[k])
    ensures UnionExtent(fields, stores).align == 0 || IsPowerOfTwo(UnionExtent(fields, stores).align)
    decreases fields
  {
    hide IsPowerOfTwo, Divides;
    KnownExtents();
    if fields != [] {
      UnionAlign(fields[1..], if fields[0].shape.Sub? then stores[1..] else stores);
    }
  }

  lemma {:induction false} UnionsArePowers(oneofs: seq<seq<Field>>, stores: seq<Store>, i: nat)
    requires |stores| == |OneofRefs(oneofs)| && (forall k :: 0 <= k < |stores| ==> WellStored(stores[k])) && i < |oneofs|
    ensures IsPowerOfTwo(PlanUnions(oneofs, stores)[i].align)
    decreases oneofs
  {
    hide IsPowerOfTwo, WellStored;
    var n := |FieldRefs(oneofs[0])|;
    KnownExtents();
    UnionAlign(oneofs[0], stores[..n]);
    if i > 0 {
      UnionsArePowers(oneofs[1..], stores[n..], i - 1);
    } else {
      assert IsPowerOfTwo(UnionExtent(oneofs[0], stores[..n]).align) ==> UnionExtent(oneofs[0], stores[..n]).align >= 1 by {
        if IsPowerOfTwo(UnionExtent(oneofs[0], stores[..n]).align) {
          PowerIsPositive(UnionExtent(oneofs[0], stores[..n]).align);
        }
      }
    }
  }

  ghost predicate OfUnion(x: Slot, unions: seq<Union>)
  {
    exists u :: 0 <= u < |unions| && x.size == unions[u].size && x.align == unions[u].align
  }

  /** Every alignment is a power of two, and only a union's size may fail to be a multiple of it. */
  ghost predicate UnevenOnlyInUnions(s: seq<Slot>, unions: seq<Union>)
  {
    forall i :: 0 <= i < |s| ==> IsPowerOfTwo(s[i].align) && (Divides(s[i].align, s[i].size) || OfUnion(s[i], unions))
  }

  lemma {:induction false} UnionSlotsAreOfUnions(unions: seq<Union>, next: nat)
    requires forall i :: 0 <= i < |unions| ==> IsPowerOfTwo(unions[i].align)
    ensures UnevenOnlyInUnions(UnionSlots(unions, next), unions)
    decreases unions
  {
    hide IsPowerOfTwo, Divides;
    if unions != [] {
      KnownExtents();
      PowerIsPositive(unions[0].align);
      UnionSlotsAreOfUnions(unions[1..], next + 2);
      var s := UnionSlots(unions, next);
      assert OfUnion(s[1], unions);
      forall i | 2 <= i < |s| && OfUnion(s[i], unions[1..]) ensures OfUnion(s[i], unions) {
        var u :| 0 <= u < |unions[1..]| && s[i].size == unions[1..][u].size && s[i].align == unions[1..][u].align;
        assert unions[u + 1] == unions[1..][u];
      }
    }
  }

  /** In the slots of a message only a union's can be uneven. */
  lemma SlotsAreOfUnions(m: Message, stores: seq<Store>)
    requires |stores| == |Refs(m)| && forall k :: 0 <= k < |stores| ==> WellStored(stores[k])
    ensures UnevenOnlyInUnions(SlotsOf(Assemble(m, stores)), Assemble(m, stores).unions)
  {
    hide IsPowerOfTwo, Divides, WellMember, WellStored, StructSlots, Assemble, PlanUnions;
    var l := Assemble(m, stores);
    MembersAreWell(m, stores);
    var rest := AssembledUnions(m, stores);
    forall i | 0 <= i < |l.unions| ensures IsPowerOfTwo(l.unions[i].align) {
      UnionsArePowers(m.oneofs, rest, i);
    }
    StructIsOfUnions(l.members, l.unions, l.maskBits);
  }

  /** With even unions, the slots of a message are all multiples of their power-of-two alignments. */
  lemma SlotsAreWell(m: Message, stores: seq<Store>)
    requires |stores| == |Refs(m)| && EvenUnions(Assemble(m, stores).unions)
    requires forall k :: 0 <= k < |stores| ==> WellStored(stores[k])
    ensures WellSized(SlotsOf(Assemble(m, stores)))
  {
    hide IsPowerOfTwo, Divides, WellStored, Assemble, SlotsOf;
    SlotsAreOfUnions(m, stores);
    var l := Assemble(m, stores);
    forall i | 0 <= i < |SlotsOf(l)| && OfUnion(SlotsOf(l)[i], l.unions) ensures Divides(SlotsOf(l)[i].align, SlotsOf(l)[i].size) {
      var u :| 0 <= u < |l.unions| && SlotsOf(l)[i].size == l.unions[u].size && SlotsOf(l)[i].align == l.unions[u].align;
      PowerIsPositive(l.unions[u].align);
    }
  }

  /** The stores of the references a message's oneofs make, and the unions planned with them. */
  lemma AssembledUnions(m: Message, stores: seq<Store>) returns (rest: seq<Store>)
    requires |stores| == |Refs(m)|
    ensures |rest| == |OneofRefs(m.oneofs)| && (forall k :: 0 <= k < |rest| ==> rest[k] in stores)
    ensures Assemble(m, stores).unions == PlanUnions(m.oneofs, rest)
  {
    hide StructExtent, StructSlots, PlanEntries, PlanFields, CountBits, MapMembers, AllFixed;
    rest := stores[|FieldRefs(m.fields)| + |MapRefs(m.maps)|..];
  }

  lemma MembersAreWell(m: Message, stores: seq<Store>)
    requires |stores| == |Refs(m)| && forall k :: 0 <= k < |stores| ==> WellStored(stores[k])
    ensures forall i :: 0 <= i < |Assemble(m, stores).members| ==> WellMember(Assemble(m, stores).members[i])
  {
    hide IsPowerOfTwo, Divides, WellMember, WellStored, StructSlots;
    var l := Assemble(m, stores);
    var nf := |FieldRefs(m.fields)|;
    forall i | 0 <= i < |l.members| ensures WellMember(l.members[i]) {
      if i < |m.fields| {
        FieldsAreWell(m.fields, stores[..nf], i);
      } else {
        MapMemberIsWell(l.members[i]);
      }
    }
  }

  lemma MapMemberIsWell(m: Member)
    requires m.size == 12 && m.align == 4
    ensures WellMember(m)
  {
    KnownExtents();
  }

  lemma StructIsOfUnions(members: seq<Member>, unions: seq<Union>, bits: nat)
    requires forall i :: 0 <= i < |members| ==> WellMember(members[i])
    requires forall i :: 0 <= i < |unions| ==> IsPowerOfTwo(unions[i].align)
    ensures UnevenOnlyInUnions(StructSlots(members, unions, bits), unions)
  {
    hide IsPowerOfTwo, Divides, WellMember, MaskExtent, OfUnion;
    MemberSlotsAreWell(members, 0);
    UnionSlotsAreOfUnions(unions, |MemberSlots(members, 0)|);
    KnownExtents();
    var mask := MaskExtent(bits);
  }

  lemma NoSlotIsEmpty(members: seq<Member>, bits: nat)
    requires forall i :: 0 <= i < |members| ==> WellMember(members[i])
    ensures forall i :: 0 <= i < |StructSlots(members, [], bits)| ==> StructSlots(members, [], bits)[i].size > 0
  {
    hide IsPowerOfTwo, Divides, WellMember, MaskExtent;
    MemberSlotsAreWell(members, 0);
    var mask := MaskExtent(bits);
  }

  /** Such a struct has a power-of-two alignment that divides its size. */
  lemma ExtentIsWell(s: seq<Slot>)
    requires WellSized(s) && forall i :: 0 <= i < |s| ==> s[i].size > 0
    ensures Aligns(Sort(s))
    ensures IsPowerOfTwo(ExtentOf(Sort(s)).align) && Divides(ExtentOf(Sort(s)).align, ExtentOf(Sort(s)).size)
  {
    var r := Sort(s);
    SameShape(s, r);
    var a := MaxAlign(r);
    KnownExtents();
    if r == [] {
      assert Times(1, 1) == 1;
    } else {
      assert r[|r| - 1] in multiset(s);
      assert Placed(r, 0) > 0;
      AlignUpIsLeast(Placed(r, 0), a);
    }
  }

  /** By-value members are well sized, whatever the order of planning. */
  lemma {:induction false} InlinedAreWell(schema: Schema, cutoff: nat, memo: map<Name, Layout>, done: seq<Name>, k: nat)
    requires Consistent(schema, cutoff, memo) && Grounded(schema, memo, done) && k < |done|
    ensures done[k] in memo && done[k] in schema && |memo[done[k]].stores| == |Refs(schema[done[k]])|
    ensures forall i :: 0 <= i < |memo[done[k]].stores| ==> WellStored(memo[done[k]].stores[i])
    decreases k
  {
    hide Assemble, IsPowerOfTwo, Divides;
    assert InlinesEarlier(schema, memo, done, k);
    var m := done[k];
    var refs, stores := Refs(schema[m]), memo[m].stores;
    forall i | 0 <= i < |stores| ensures WellStored(stores[i]) {
      if stores[i].Inline? {
        var j :| 0 <= j < k && done[j] == refs[i];
        InlinedAreWell(schema, cutoff, memo, done, j);
        FixedIsWell(schema, cutoff, memo, refs[i]);
      }
    }
  }

  lemma FixedIsWell(schema: Schema, cutoff: nat, memo: map<Name, Layout>, t: Name)
    requires Consistent(schema, cutoff, memo) && t in memo && memo[t].fixedSize
    requires forall i :: 0 <= i < |memo[t].stores| ==> WellStored(memo[t].stores[i])
    ensures IsPowerOfTwo(memo[t].align) && Divides(memo[t].align, memo[t].size)
  {
    hide WellStored, IsPowerOfTwo, Divides;
    var stores := StoresIn(memo, cutoff, Refs(schema[t]));
    SlotsAreWell(schema[t], stores);
    MembersAreWell(schema[t], stores);
    NoSlotIsEmpty(memo[t].members, memo[t].maskBits);
    ExtentIsWell(SlotsOf(memo[t]));
  }

  /** A message whose planned unions are multiples of their alignments, as one with no oneof is, has no padding between
    * its slots, and no order of them is smaller. */
  lemma EvenUnionsNoPadding(schema: Schema, cutoff: nat, memo: map<Name, Layout>, done: seq<Name>, k: nat, other: seq<Slot>)
    requires Consistent(schema, cutoff, memo) && Grounded(schema, memo, done) && k < |done|
    requires done[k] in memo && EvenUnions(memo[done[k]].unions)
    requires multiset(other) == multiset(SlotsOf(memo[done[k]]))
    ensures Aligns(Sort(SlotsOf(memo[done[k]]))) && NoPadding(Sort(SlotsOf(memo[done[k]])))
    ensures ExtentOf(Sort(SlotsOf(memo[done[k]]))).size == memo[done[k]].size
    ensures Aligns(other) && memo[done[k]].size <= ExtentOf(other).size
  {
    hide WellStored, IsPowerOfTwo, Divides, StructSlots;
    InlinedAreWell(schema, cutoff, memo, done, k);
    var m := done[k];
    AssembleKeepsStores(schema[m], StoresIn(memo, cutoff, Refs(schema[m])));
    SlotsAreWell(schema[m], memo[m].stores);
    SortIsOptimal(SlotsOf(memo[m]), other);
  }

  /** For every planned message: only a union's slot can be uneven, there is padding exactly when some slot comes after
    * uneven slots whose bytes its alignment does not divide, and without padding no order is smaller. */
  lemma PaddedExactly(schema: Schema, cutoff: nat, memo: map<Name, Layout>, done: seq<Name>, k: nat, other: seq<Slot>)
    requires Consistent(schema, cutoff, memo) && Grounded(schema, memo, done) && k < |done|
    requires done[k] in memo && multiset(other) == multiset(SlotsOf(memo[done[k]]))
    ensures UnevenOnlyInUnions(SlotsOf(memo[done[k]]), memo[done[k]].unions)
    ensures var r := Sort(SlotsOf(memo[done[k]]));
            && Aligns(r) && ExtentOf(r).size == memo[done[k]].size
            && (NoPadding(r) <==> forall i :: 0 <= i < |r| ==> Divides(r[i].align, Uneven(r[..i])))
            && (NoPadding(r) ==> Aligns(other) && memo[done[k]].size <= ExtentOf(other).size)
  {
    hide WellStored, IsPowerOfTwo, Divides, StructSlots, Uneven, OfUnion;
    InlinedAreWell(schema, cutoff, memo, done, k);
    var m := done[k];
    AssembleKeepsStores(schema[m], StoresIn(memo, cutoff, Refs(schema[m])));
    SlotsAreOfUnions(schema[m], memo[m].stores);
    var r := Sort(SlotsOf(memo[m]));
    PaddingExactly(SlotsOf(memo[m]));
    if NoPadding(r) {
      NoPaddingIsLeast(r, other);
    }
  }

  /** One int64, and a oneof of a string and an int64. */
  function StringOrNumber(): Message
  {
    Message([Field(3, false, Scalar(true))], [], [[Field(1, false, Str), Field(2, false, Scalar(true))]], false)
  }

  /** The order chosen leaves padding between slots, and another order of the same slots is smaller. */
  ghost predicate PadsInVain(slots: seq<Slot>)
    requires forall i :: 0 <= i < |slots| ==> slots[i].align > 0
  {
    && Aligns(Sort(slots)) && !NoPadding(Sort(slots))
    && exists other :: multiset(other) == multiset(slots) && Aligns(other)
                       && ExtentOf(other).size < StructExtent(slots).size
  }

  /** Its union is planned as 12 bytes aligned to 8, the two maxima taken apart. The order chosen then plans 32 bytes with
    * padding inside, where another order of the same slots plans fewer. */
  lemma UnionLeavesPadding()
    ensures Refs(StringOrNumber()) == []
    ensures var l := Assemble(StringOrNumber(), []);
            l.unions == [Union(1, 12, 8)] && !EvenUnions(l.unions) && l.size == 32 && PadsInVain(SlotsOf(l))
  {
    StringOrNumberIs();
    UnevenSlots();
    hide StringOrNumber, Assemble, StructSlots, SlotsOf, PadsInVain, StructExtent, Refs;
    var l := Assemble(StringOrNumber(), []);
    assert Max(l.unions[0].align, 1) == 8;
    TwelveIsUneven();
  }

  lemma StringOrNumberIs()
    ensures Refs(StringOrNumber()) == []
    ensures var l := Assemble(StringOrNumber(), []);
            && l.unions == [Union(1, 12, 8)]
            && SlotsOf(l) == [Slot(8, 8, 3, 0), Slot(1, 1, 1, 1), Slot(12, 8, 1, 2)]
            && l.size == StructExtent(SlotsOf(l)).size
  {
    hide StructExtent;
    var m := StringOrNumber();
    assert m.fields[1..] == [] && m.oneofs[1..] == [];
    assert FieldRefs(m.fields) == [] && OneofRefs(m.oneofs) == [];
    var oneof := m.oneofs[0];
    assert oneof[1..] == [Field(2, false, Scalar(true))] && oneof[1..][1..] == [];
    assert UnionExtent(oneof[1..], []) == Extent(8, 8);
    assert UnionExtent(oneof, []) == Extent(12, 8);
    assert PlanUnions(m.oneofs, []) == [Union(1, 12, 8)];
    assert PlanFields(m.fields, []) == [Member(3, InlineScalar, 8, 8, false, false)];
    var number := Member(3, InlineScalar, 8, 8, false, false);
    SlotsOfOne(number, Union(1, 12, 8));
    assert Assemble(m, []).members == [number] && Assemble(m, []).maskBits == 0;
  }

  lemma SlotsOfOne(number: Member, u: Union)
    requires number == Member(3, InlineScalar, 8, 8, false, false) && u == Union(1, 12, 8)
    ensures CountBits([number]) == 0
    ensures StructSlots([number], [u], 0) == [Slot(8, 8, 3, 0), Slot(1, 1, 1, 1), Slot(12, 8, 1, 2)]
  {
    assert [number][1..] == [] && [u][1..] == [];
    assert MemberSlots([number], 0) == [Slot(8, 8, 3, 0)];
    assert UnionSlots([u], 1) == [Slot(1, 1, 1, 1), Slot(12, 8, 1, 2)];
  }

  lemma UnevenSlots()
    ensures var slots := [Slot(8, 8, 3, 0), Slot(1, 1, 1, 1), Slot(12, 8, 1, 2)];
            PadsInVain(slots) && StructExtent(slots).size == 32
  {
    var number, disc, union := Slot(8, 8, 3, 0), Slot(1, 1, 1, 1), Slot(12, 8, 1, 2);
    SortRotates(number, disc, union);
    RoundsTo();
    hide AlignUp, Sort, NoPadding, ExtentOf, PadsInVain, StructExtent;
    ThreeExtent(union, number, disc);
    ThreeExtent(number, union, disc);
    BetterOrder(number, disc, union);
  }

  lemma BetterOrder(y: Slot, z: Slot, x: Slot)
    requires Sort([y, z, x]) == [x, y, z] && Aligns([x, y, z]) && Aligns([y, x, z]) && !NoPadding([x, y, z])
    requires ExtentOf([y, x, z]).size < ExtentOf([x, y, z]).size
    ensures Aligns([y, z, x]) && PadsInVain([y, z, x]) && StructExtent([y, z, x]) == ExtentOf([x, y, z])
  {
    hide AlignUp, Sort, NoPadding, ExtentOf;
    assert [x, y, z][0] == x && [x, y, z][1] == y && [x, y, z][2] == z;
    assert multiset([y, x, z]) == multiset([y, z, x]);
  }

  lemma TwelveIsUneven()
    ensures !Divides(8, 12)
  {
    forall k: nat ensures Times(k, 8) != 12 {
    }
  }
}
