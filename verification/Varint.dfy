/** Base-128 varints: the reference meaning, the byte-at-a-time reader, and the encoder it inverts. */
module Varint {

  datatype WireError =
    | TruncatedVarint | VarintOverflow
    | InvalidFieldNumber | FieldNumberRange | ReservedWireType
    | TruncatedI32 | TruncatedI64 | LengthExceedsBuffer
    | UnexpectedEndGroup | EndGroupMismatch | UnterminatedGroup | GroupTooDeep

  /** A reader returns the value with the advanced cursor, or the error code. */
  datatype Read<+T> = Done(value: T, next: nat) | Fail(error: WireError)

  const MAX_VARINT_BYTES: nat := 10

  predicate Continues(b: bv8) { b & 0x80 != 0 }

  /** The tenth byte of a varint may contribute bit 63 and nothing else. */
  predicate FitsBit63(b: bv8) { b <= 1 }

  function Low7(b: bv8): bv64 { (b & 0x7F) as bv64 }

  /** Length of the run of continuation bytes at p, not looking past end. */
  function Run(buf: seq<bv8>, p: nat, end: nat): (k: nat)
    requires p <= end <= |buf|
    ensures p + k <= end
    ensures forall i :: p <= i < p + k ==> Continues(buf[i])
    ensures p + k < end ==> !Continues(buf[p + k])
    decreases end - p
  {
    if p < end && Continues(buf[p]) then 1 + Run(buf, p + 1, end) else 0
  }

  function Join(x: bv64, y: bv64): bv64 { x | y }

  function Up7(x: bv64): bv64 { x << 7 }

  /** The k bytes at p read as seven-bit groups, least significant group first. */
  function Base128(buf: seq<bv8>, p: nat, k: nat): bv64
    requires p + k <= |buf|
    decreases k
  {
    if k == 0 then 0 else Join(Low7(buf[p]), Up7(Base128(buf, p + 1, k - 1)))
  }

  /** What one varint read at p must yield: the groups up to the first terminator, at most ten bytes,
      the tenth of which may carry bit 63 only. */
  function VarintAt(buf: seq<bv8>, p: nat, end: nat): (r: Read<bv64>)
    requires p <= end <= |buf|
    ensures r.Done? ==> p < r.next <= end && r.next <= p + MAX_VARINT_BYTES
  {
    var k := Run(buf, p, end);
    if k >= MAX_VARINT_BYTES || (k == 9 && p + 9 < end && !FitsBit63(buf[p + 9])) then
      Fail(VarintOverflow)
    else if p + k == end then
      Fail(TruncatedVarint)
    else
      Done(Base128(buf, p, k + 1), p + k + 1)
  }

  /** A run is determined by where its first terminator stands. */
  lemma {:induction false} RunIs(buf: seq<bv8>, p: nat, end: nat, k: nat)
    requires p + k < end <= |buf|
    requires forall i :: p <= i < p + k ==> Continues(buf[i])
    requires !Continues(buf[p + k])
    ensures Run(buf, p, end) == k
    decreases k
  {
    if k > 0 {
      RunIs(buf, p + 1, end, k - 1);
    }
  }

  /** k + 1 bytes at p, of which exactly the last terminates, decode in at most nine bytes to their groups. */
  lemma VarintIs(buf: seq<bv8>, p: nat, end: nat, k: nat)
    requires p + k < end <= |buf| && k <= 8
    requires forall i :: p <= i < p + k ==> Continues(buf[i])
    requires !Continues(buf[p + k])
    ensures VarintAt(buf, p, end) == Done(Base128(buf, p, k + 1), p + k + 1)
  {
    RunIs(buf, p, end, k);
  }

  /** A successful read does not depend on what lies past the bytes it consumed. */
  lemma {:induction false} VarintLocal(buf: seq<bv8>, p: nat, end: nat, end': nat)
    requires p <= end <= |buf| && end' <= |buf|
    requires VarintAt(buf, p, end).Done? && VarintAt(buf, p, end).next <= end'
    ensures VarintAt(buf, p, end') == VarintAt(buf, p, end)
  {
    RunIs(buf, p, end', Run(buf, p, end));
  }

  // ---- the meaning in plain integers ---------------------------------------------------------

  const TWO_64: nat := 0x1_0000_0000_0000_0000

  /** The seven-bit digits of the k bytes at p as a number in base 128, the first digit least. */
  function Digits(buf: seq<bv8>, p: nat, k: nat): nat
    requires p + k <= |buf|
    decreases k
  {
    if k == 0 then 0 else buf[p] as nat % 128 + 128 * Digits(buf, p + 1, k - 1)
  }

  /** k + 1 bytes at p stand before the end, and the last of them is the first below 128. */
  predicate EndsAfter(buf: seq<bv8>, p: nat, end: nat, k: nat)
    requires end <= |buf|
  {
    p + k < end && buf[p + k] as nat < 128 && forall i :: p <= i < p + k ==> buf[i] as nat >= 128
  }

  lemma ByteIs(b: bv8)
    ensures Continues(b) <==> b as nat >= 128
    ensures FitsBit63(b) <==> b as nat <= 1
  {
  }

  lemma UpRaw(x: bv64)
    requires x < 0x200_0000_0000_0000
    ensures (x << 7) as nat == 128 * (x as nat)
  {
  }

  lemma JoinRaw(b: bv8, x: bv64)
    ensures ((x << 7) | ((b & 0x7F) as bv64)) as nat == (x << 7) as nat + ((b & 0x7F) as bv64) as nat
  {
  }

  lemma LowRaw(b: bv8)
    ensures ((b & 0x7F) as bv64) as nat == (b & 0x7F) as nat == b as nat % 128
  {
  }

  lemma JoinSwaps(b: bv8, x: bv64)
    ensures Join(Low7(b), Up7(x)) == (x << 7) | ((b & 0x7F) as bv64)
  {
  }

  predicate RoomAbove(x: bv64) { x < 0x200_0000_0000_0000 }

  /** One more digit in front. */
  lemma DigitInFront(b: bv8, x: bv64)
    requires RoomAbove(x)
    ensures Join(Low7(b), Up7(x)) as nat == b as nat % 128 + 128 * (x as nat)
  {
    hide Join, Up7, Low7;
    UpRaw(x);
    JoinRaw(b, x);
    LowRaw(b);
    JoinSwaps(b, x);
  }

  /** The bound on k groups, the last of which is below 2 when `short`, else below 128. */
  predicate Below(x: bv64, short: bool, k: nat) {
    var top: bv64 := if short then 2 else 0x80;
    x < if k <= 1 then top else if k == 2 then top << 7 else if k == 3 then top << 14 else if k == 4 then top << 21
        else if k == 5 then top << 28 else if k == 6 then top << 35 else if k == 7 then top << 42
        else if k == 8 then top << 49 else top << 56
  }

  lemma NextBelow(b: bv8, x: bv64, short: bool, k: nat)
    requires 1 <= k <= 8 && Below(x, short, k)
    ensures Below(Join(Low7(b), Up7(x)), short, k + 1)
  {
  }

  lemma BelowLeavesRoom(x: bv64, short: bool, k: nat)
    requires 1 <= k <= 9 && Below(x, short, k) && (k == 9 ==> short)
    ensures RoomAbove(x)
  {
  }

  lemma OneGroupBelow(b: bv8, short: bool)
    requires short ==> FitsBit63(b)
    ensures Below(Join(Low7(b), Up7(0)), short, 1) && RoomAbove(0) && (0 as bv64) as nat == 0
  {
  }

  lemma NoGroups(buf: seq<bv8>, p: nat)
    requires p <= |buf|
    ensures Base128(buf, p, 0) == 0 && Digits(buf, p, 0) == 0
  {
  }

  lemma OneMoreGroup(buf: seq<bv8>, p: nat, k: nat)
    requires k > 0 && p + k <= |buf| && RoomAbove(Base128(buf, p + 1, k - 1))
    requires Base128(buf, p + 1, k - 1) as nat == Digits(buf, p + 1, k - 1)
    ensures Base128(buf, p, k) == Join(Low7(buf[p]), Up7(Base128(buf, p + 1, k - 1)))
    ensures Base128(buf, p, k) as nat == Digits(buf, p, k)
  {
    hide Join, Up7, Low7, RoomAbove;
    DigitInFront(buf[p], Base128(buf, p + 1, k - 1));
  }

  /** The groups of up to nine bytes, or of ten whose last is 0 or 1, are their digits. */
  lemma {:induction false} GroupsAreDigits(buf: seq<bv8>, p: nat, k: nat, short: bool)
    requires 1 <= k <= 10 && p + k <= |buf| && (short ==> FitsBit63(buf[p + k - 1])) && (k == 10 ==> short)
    ensures Base128(buf, p, k) as nat == Digits(buf, p, k)
    ensures k <= 9 ==> Below(Base128(buf, p, k), short, k)
    decreases k
  {
    hide Join, Up7, Low7, Below, RoomAbove, FitsBit63, Base128, Digits;
    var rest := Base128(buf, p + 1, k - 1);
    if k == 1 {
      NoGroups(buf, p + 1);
      OneGroupBelow(buf[p], short);
    } else {
      GroupsAreDigits(buf, p + 1, k - 1, short);
      BelowLeavesRoom(rest, short, k - 1);
      if k <= 9 {
        NextBelow(buf[p], rest, short, k - 1);
      }
    }
    OneMoreGroup(buf, p, k);
  }

  function Power128(k: nat): nat { if k == 0 then 1 else 128 * Power128(k - 1) }

  lemma {:induction false} LastDigit(buf: seq<bv8>, p: nat, k: nat)
    requires k >= 1 && p + k <= |buf|
    ensures Digits(buf, p, k) == Digits(buf, p, k - 1) + Power128(k - 1) * (buf[p + k - 1] as nat % 128)
    ensures Digits(buf, p, k - 1) < Power128(k - 1)
    decreases k
  {
    if k > 1 {
      LastDigit(buf, p + 1, k - 1);
      var d := buf[p + k - 1] as nat % 128;
      assert Power128(k - 1) == 128 * Power128(k - 2);
      Regroup(128, Power128(k - 2), d, Digits(buf, p + 1, k - 2));
    }
  }

  lemma Regroup(a: nat, b: nat, d: nat, x: nat)
    ensures a * (x + b * d) == a * x + (a * b) * d
  {
  }

  lemma {:induction false} PowerMonotone(j: nat, k: nat)
    requires j <= k
    ensures Power128(j) <= Power128(k)
  {
    if j < k {
      PowerMonotone(j, k - 1);
    }
  }

  lemma NinePowers()
    ensures 2 * Power128(9) == TWO_64
  {
    assert Power128(3) == 128 * 128 * 128;
    assert Power128(6) == 128 * 128 * 128 * Power128(3);
    assert Power128(9) == 128 * 128 * 128 * Power128(6);
  }

  /** Digits of at most ten bytes are below 2^64 unless a tenth is above 1. */
  lemma DigitsFit(buf: seq<bv8>, p: nat, k: nat)
    requires 1 <= k <= 10 && p + k <= |buf| && buf[p + k - 1] as nat < 128
    ensures Digits(buf, p, k) < TWO_64 <==> (k == 10 ==> buf[p + 9] as nat <= 1)
  {
    hide Digits, Power128;
    NinePowers();
    LastDigit(buf, p, k);
    if k == 10 {
      var d := buf[p + 9] as nat;
      assert d >= 2 ==> Power128(9) * d >= 2 * Power128(9);
    } else {
      PowerMonotone(k, 9);
      DigitsBelow(buf, p, k);
    }
  }

  lemma DigitsBelow(buf: seq<bv8>, p: nat, k: nat)
    requires p + k <= |buf|
    ensures Digits(buf, p, k) < Power128(k)
    decreases k
  {
    if k > 0 {
      DigitsBelow(buf, p + 1, k - 1);
    }
  }

  /** What reading a varint yields, in plain integers: the digits up to the first byte below 128 when that byte is among
    * ten and the number is below 2^64; truncation when fewer than ten bytes are left and none of them is below 128; and
    * overflow in every other case. */
  lemma VarintMeans(buf: seq<bv8>, p: nat, end: nat)
    requires p <= end <= |buf|
    ensures var r := VarintAt(buf, p, end);
            if exists k :: 0 <= k < 10 && EndsAfter(buf, p, end, k) && Digits(buf, p, k + 1) < 0x1_0000_0000_0000_0000 then
              r.Done? && p < r.next && EndsAfter(buf, p, end, r.next - p - 1) && r.value as nat == Digits(buf, p, r.next - p)
            else if end - p < 10 && forall i :: p <= i < end ==> buf[i] as nat >= 128 then r == Fail(TruncatedVarint)
            else r == Fail(VarintOverflow)
  {
    hide Continues, FitsBit63, Low7, Base128, Digits;
    var k := Run(buf, p, end);
    forall i | p <= i < end ensures Continues(buf[i]) <==> buf[i] as nat >= 128 {
      ByteIs(buf[i]);
    }
    forall j | EndsAfter(buf, p, end, j) ensures j == k {
      RunIs(buf, p, end, j);
    }
    if p + k < end && k < 10 {
      assert EndsAfter(buf, p, end, k);
      DigitsFit(buf, p, k + 1);
      ByteIs(buf[p + k]);
      if k < 9 {
        GroupsAreDigits(buf, p, k + 1, false);
      } else if FitsBit63(buf[p + k]) {
        GroupsAreDigits(buf, p, k + 1, true);
      }
    }
  }

  // ---- the byte-at-a-time reader -------------------------------------------------------------

  /** x moved up by i groups, that is shifted left by 7 * i. */
  function Place(x: bv64, i: nat): bv64 {
    if i == 0 then x else Up7(Place(x, i - 1))
  }

  lemma JoinAssoc(x: bv64, y: bv64, z: bv64, yz: bv64, xy: bv64)
    requires yz == Join(y, z) && xy == Join(x, y)
    ensures Join(x, yz) == Join(xy, z)
  {
  }

  lemma UpJoin(x: bv64, y: bv64)
    ensures Up7(Join(x, y)) == Join(Up7(x), Up7(y))
  {
  }

  lemma JoinZero(x: bv64)
    ensures Up7(0) == 0 && Join(x, 0) == x && Join(0, x) == x
  {
  }

  lemma {:induction false} PlaceLaws(x: bv64, y: bv64, i: nat)
    ensures Place(Join(x, y), i) == Join(Place(x, i), Place(y, i))
    ensures Place(Up7(x), i) == Up7(Place(x, i))
    ensures Place(0, i) == 0
  {
    hide Join, Up7;
    if i > 0 {
      PlaceLaws(x, y, i - 1);
      UpJoin(Place(x, i - 1), Place(y, i - 1));
      JoinZero(0);
    }
  }

  /** The k bytes at start are the groups read so far, then the unread rest at its place. */
  ghost predicate ReadSoFar(buf: seq<bv8>, start: nat, k: nat, i: nat, result: bv64) {
    start + k <= |buf| ==> i <= k && Base128(buf, start, k) == Join(result, Place(Base128(buf, start + i, k - i), i))
  }

  lemma StartOfRead(buf: seq<bv8>, start: nat, k: nat)
    ensures ReadSoFar(buf, start, k, 0, 0)
  {
  }

  /** One step of the accumulation: the next group moves from the unread rest into the result. */
  lemma ReadStep(buf: seq<bv8>, start: nat, k: nat, i: nat, result: bv64)
    requires ReadSoFar(buf, start, k, i, result) && i < k && start + i < |buf|
    ensures ReadSoFar(buf, start, k, i + 1, Join(result, Place(Low7(buf[start + i]), i)))
  {
    hide Join, Up7, Low7;
    if start + k <= |buf| {
      var low, rest := Low7(buf[start + i]), Base128(buf, start + i + 1, k - i - 1);
      PlaceLaws(low, Up7(rest), i);
      PlaceLaws(rest, 0, i);
      JoinAssoc(result, Place(low, i), Place(rest, i + 1), Place(Join(low, Up7(rest)), i), Join(result, Place(low, i)));
    }
  }

  lemma EndOfRead(buf: seq<bv8>, start: nat, k: nat, result: bv64)
    requires ReadSoFar(buf, start, k, k, result) && start + k <= |buf|
    ensures Base128(buf, start, k) == result
  {
    hide Join, Up7;
    PlaceLaws(0, 0, k);
    JoinZero(result);
  }

  /** The shift counter of the loop is 7 * i; Place(_, i) is that shift. */
  method ReadVarint(buf: seq<bv8>, start: nat, end: nat) returns (r: Read<bv64>)
    requires start <= end <= |buf|
    ensures r == VarintAt(buf, start, end)
  {
    hide Join, Up7, Place, Low7, Continues, FitsBit63, ReadSoFar, Base128;
    var p := start;
    if p < end && !Continues(buf[p]) {
      VarintIs(buf, p, end, 0);
      OneByte(buf, p);
      return Done(buf[p] as bv64, p + 1);
    }
    var result: bv64 := 0;
    var i := 0;
    ghost var k := Run(buf, start, end) + 1;
    StartOfRead(buf, start, k);
    while 7 * i < 64
      invariant i <= 10 && p == start + i && p <= end
      invariant Run(buf, start, end) == i + Run(buf, p, end)
      invariant ReadSoFar(buf, start, k, i, result)
      decreases end - p
    {
      if p >= end {
        return Fail(TruncatedVarint);
      }
      var b := buf[p];
      if 7 * i == 63 && !FitsBit63(b) {
        return Fail(VarintOverflow);
      }
      ReadStep(buf, start, k, i, result);
      p := p + 1;
      result := Join(result, Place(Low7(b), i));
      if !Continues(b) {
        EndOfRead(buf, start, k, result);
        return Done(result, p);
      }
      i := i + 1;
    }
    return Fail(VarintOverflow);
  }

  lemma OneByte(buf: seq<bv8>, p: nat)
    requires p < |buf| && !Continues(buf[p])
    ensures Base128(buf, p, 1) == buf[p] as bv64
  {
    assert Base128(buf, p + 1, 0) == 0;
  }

  // ---- the encoder the reader inverts --------------------------------------------------------

  predicate OneGroup(v: bv64) { v < 0x80 }

  function LastByte(v: bv64): bv8 { (v & 0x7F) as bv8 }

  function MoreByte(v: bv64): bv8 { (v & 0x7F) as bv8 | 0x80 }

  function Down7(v: bv64): bv64 { v >> 7 }

  /** "Base 128 Varints" of the Protocol Buffers Encoding guide, from the i-th byte on (v is what is left). */
  function EncodeFrom(v: bv64, i: nat): (s: seq<bv8>)
    requires i < MAX_VARINT_BYTES
    ensures 1 <= |s| <= MAX_VARINT_BYTES - i
    decreases MAX_VARINT_BYTES - i
  {
    if OneGroup(v) || i == 9 then [LastByte(v)] else [MoreByte(v)] + EncodeFrom(Down7(v), i + 1)
  }

  function Encode(v: bv64): seq<bv8> { EncodeFrom(v, 0) }

  function Remaining(v: bv64, i: nat): bv64 {
    if i == 0 then v else Down7(Remaining(v, i - 1))
  }

  lemma TenthGroup(v: bv64)
    ensures Down7(Down7(Down7(Down7(Down7(Down7(Down7(Down7(Down7(v))))))))) <= 1
  {
    assert ((((((((v >> 7) >> 7) >> 7) >> 7) >> 7) >> 7) >> 7) >> 7) >> 7 <= 1;
  }

  lemma RemainingAtTenth(v: bv64)
    ensures Remaining(v, 9) <= 1
  {
    hide Down7;
    TenthGroup(v);
    assert Remaining(v, 1) == Down7(v);
    assert Remaining(v, 3) == Down7(Down7(Remaining(v, 1)));
    assert Remaining(v, 5) == Down7(Down7(Remaining(v, 3)));
    assert Remaining(v, 7) == Down7(Down7(Remaining(v, 5)));
    assert Remaining(v, 9) == Down7(Down7(Remaining(v, 7)));
  }

  lemma FlagLaws(v: bv64)
    ensures Continues(MoreByte(v)) && !Continues(LastByte(v))
    ensures v <= 1 ==> OneGroup(v) && FitsBit63(LastByte(v))
  {
  }

  lemma MoreByteLaw(v: bv64)
    ensures Join(Low7(MoreByte(v)), Up7(Down7(v))) == v
  {
    assert ((((v & 0x7F) as bv8 | 0x80) & 0x7F) as bv64) | ((v >> 7) << 7) == v;
  }

  lemma LastByteLaw(v: bv64)
    requires OneGroup(v)
    ensures Join(Low7(LastByte(v)), Up7(0)) == v
  {
  }

  /** The marks of an encoded suffix: all bytes but the last continue, and a tenth byte fits bit 63. */
  lemma {:induction false} SuffixMarks(v0: bv64, i: nat, j: nat)
    requires i < MAX_VARINT_BYTES && j < |EncodeFrom(Remaining(v0, i), i)|
    ensures var s := EncodeFrom(Remaining(v0, i), i);
            && (Continues(s[j]) <==> j < |s| - 1)
            && (i + j == 9 ==> FitsBit63(s[j]))
    decreases MAX_VARINT_BYTES - i
  {
    hide OneGroup, LastByte, MoreByte, Down7, Continues, FitsBit63;
    var v := Remaining(v0, i);
    FlagLaws(v);
    if i == 9 {
      RemainingAtTenth(v0);
    }
    if !OneGroup(v) && j > 0 {
      assert Remaining(v0, i + 1) == Down7(v);
      SuffixMarks(v0, i + 1, j - 1);
    }
  }

  lemma LastGroup(v: bv64, buf: seq<bv8>, p: nat)
    requires OneGroup(v) && p < |buf| && buf[p] == LastByte(v)
    ensures Base128(buf, p, 1) == v
  {
    hide OneGroup, LastByte, Join, Up7, Low7;
    LastByteLaw(v);
    assert Base128(buf, p + 1, 0) == 0;
  }

  /** The groups of an encoded suffix, wherever it stands in a buffer, are the value. */
  lemma {:induction false} SuffixValue(v0: bv64, i: nat, buf: seq<bv8>, p: nat)
    requires i < MAX_VARINT_BYTES
    requires var s := EncodeFrom(Remaining(v0, i), i); p + |s| <= |buf| && buf[p..p + |s|] == s
    ensures Base128(buf, p, |EncodeFrom(Remaining(v0, i), i)|) == Remaining(v0, i)
    decreases MAX_VARINT_BYTES - i
  {
    hide OneGroup, LastByte, MoreByte, Down7, Base128, EncodeFrom, Remaining;
    var v := Remaining(v0, i);
    var s := EncodeFrom(v, i);
    if i == 9 {
      LastIsOneGroup(v0);
    }
    if OneGroup(v) {
      EncodedLast(v, i);
      assert buf[p] == s[0];
      LastGroup(v, buf, p);
    } else {
      EncodedTail(v0, i);
      assert buf[p] == s[0];
      assert EncodeFrom(Remaining(v0, i + 1), i + 1) == s[1..] == buf[p + 1..p + |s|];
      SuffixValue(v0, i + 1, buf, p + 1);
      FirstGroup(v, buf, p, |s| - 1);
    }
  }

  lemma LastIsOneGroup(v0: bv64)
    ensures OneGroup(Remaining(v0, 9))
  {
    hide OneGroup, FitsBit63;
    RemainingAtTenth(v0);
    FlagLaws(Remaining(v0, 9));
  }

  lemma EncodedLast(v: bv64, i: nat)
    requires i < MAX_VARINT_BYTES && OneGroup(v)
    ensures EncodeFrom(v, i) == [LastByte(v)]
  {
    hide OneGroup, LastByte, MoreByte, Down7;
  }

  /** After its first byte, the encoding goes on with the rest of the value. */
  lemma EncodedTail(v0: bv64, i: nat)
    requires i < MAX_VARINT_BYTES - 1 && !OneGroup(Remaining(v0, i))
    ensures var v := Remaining(v0, i);
            && Remaining(v0, i + 1) == Down7(v)
            && EncodeFrom(v, i) == [MoreByte(v)] + EncodeFrom(Down7(v), i + 1)
  {
    hide OneGroup, LastByte, MoreByte, Down7;
  }

  lemma FirstGroup(v: bv64, buf: seq<bv8>, p: nat, k: nat)
    requires p + 1 + k <= |buf| && buf[p] == MoreByte(v) && Base128(buf, p + 1, k) == Down7(v)
    ensures Base128(buf, p, k + 1) == v
  {
    hide MoreByte, Down7, Join, Up7, Low7;
    MoreByteLaw(v);
  }

  /** Round trip: every 64-bit value, encoded anywhere in a buffer, reads back with the cursor just past it. */
  lemma RoundTrip(v: bv64, buf: seq<bv8>, p: nat, end: nat)
    requires p + |Encode(v)| <= end <= |buf| && buf[p..p + |Encode(v)|] == Encode(v)
    ensures VarintAt(buf, p, end) == Done(v, p + |Encode(v)|)
  {
    hide Continues, FitsBit63, EncodeFrom, Base128;
    var n := |Encode(v)|;
    SuffixValue(v, 0, buf, p);
    forall i | p <= i < p + n
      ensures (Continues(buf[i]) <==> i < p + n - 1) && (i == p + 9 ==> FitsBit63(buf[i]))
    {
      assert buf[i] == buf[p..p + n][i - p];
      SuffixMarks(v, 0, i - p);
    }
    RunIs(buf, p, end, n - 1);
  }
}
