/** Word-at-a-time primitives: each packs a per-byte fact of eight bytes into one 64-bit operation. */
module Swar {
  import opened Varint

  const MSB: bv64 := 0x8080808080808080
  const LOW7: bv64 := 0x7F7F7F7F7F7F7F7F

  // ---- the operations ------------------------------------------------------------------------

  function Gather(b0: bv8, b1: bv8, b2: bv8, b3: bv8, b4: bv8, b5: bv8, b6: bv8, b7: bv8): bv64 {
    b0 as bv64 | (b1 as bv64 << 8) | (b2 as bv64 << 16) | (b3 as bv64 << 24)
    | (b4 as bv64 << 32) | (b5 as bv64 << 40) | (b6 as bv64 << 48) | (b7 as bv64 << 56)
  }

  /** Byte i of the eight at q in bits 8i .. 8i+7. */
  function Load64(s: seq<bv8>, q: nat): bv64
    requires q + 8 <= |s|
  {
    Gather(s[q], s[q + 1], s[q + 2], s[q + 3], s[q + 4], s[q + 5], s[q + 6], s[q + 7])
  }

  /** Gather the low seven bits of every byte: three compaction rounds. */
  function Compact7(w: bv64): bv64 {
    var x := ((w & 0x7F007F007F007F00) >> 1) | (w & 0x007F007F007F007F);
    var y := ((x & 0x3FFF00003FFF0000) >> 2) | (x & 0x00003FFF00003FFF);
    ((y & 0x0FFFFFFF00000000) >> 4) | (y & 0x000000000FFFFFFF)
  }

  /** Bit i is the top bit of byte i. */
  function ByteMask8(w: bv64): bv64 {
    ((w & MSB) * 0x0002040810204081) >> 56
  }

  /** All bits of the low n bytes. */
  function LowByteMask(n: nat): bv64
    requires 1 <= n <= 8
  {
    if n == 1 then 0xFF else if n == 2 then 0xFFFF else if n == 3 then 0xFFFFFF else if n == 4 then 0xFFFFFFFF
    else if n == 5 then 0xFFFFFFFFFF else if n == 6 then 0xFFFFFFFFFFFF else if n == 7 then 0xFFFFFFFFFFFFFF
    else 0xFFFFFFFFFFFFFFFF
  }

  /** x moved up by n bytes. */
  function UpBytes(x: bv64, n: nat): bv64
    requires n < 8
  {
    if n == 0 then x else Up8(UpBytes(x, n - 1))
  }

  function Up8(x: bv64): bv64 { x << 8 }

  lemma UpWords(x: bv64)
    ensures UpBytes(x, 3) == x << 24 && UpBytes(x, 4) == x << 32
  {
    hide Up8;
    assert UpBytes(x, 2) == Up8(Up8(UpBytes(x, 0)));
    assert UpBytes(x, 4) == Up8(Up8(UpBytes(x, 2)));
    hide UpBytes;
    Up8Twice(x);
  }

  lemma Up8Twice(x: bv64)
    ensures Up8(Up8(Up8(x))) == x << 24 && Up8(Up8(Up8(Up8(x)))) == x << 32
  {
    ShiftTwo(x);
    ShiftThree(x);
    ShiftFour(x);
  }

  lemma ShiftTwo(x: bv64)
    ensures (x << 8) << 8 == x << 16
  {
  }

  lemma ShiftThree(x: bv64)
    ensures (x << 16) << 8 == x << 24
  {
  }

  lemma ShiftFour(x: bv64)
    ensures (x << 24) << 8 == x << 32
  {
  }

  /** The value in the low n bytes of a word. */
  function WordValue(w: bv64, n: nat): bv64
    requires 1 <= n <= 8
  {
    Compact7(w & LowByteMask(n) & LOW7)
  }

  /** Exactly one n-byte varint fills the low n bytes: all but byte n - 1 continue. */
  predicate IsOneVarint(w: bv64, n: nat)
    requires 1 <= n <= 8
  {
    w & (MSB & LowByteMask(n)) == (MSB & LowByteMask(n)) ^ UpBytes(0x80, n - 1)
  }

  /** Two n-byte varints fill the low 2n bytes. */
  predicate IsTwoVarints(w: bv64, n: nat)
    requires 1 <= n <= 4
  {
    var m := MSB & LowByteMask(n);
    var one := m ^ UpBytes(0x80, n - 1);
    w & (m | UpBytes(m, n)) == one | UpBytes(one, n)
  }

  function DownBytes(w: bv64, n: nat): bv64
    requires 1 <= n <= 4
  {
    if n == 1 then w >> 8 else if n == 2 then w >> 16 else if n == 3 then w >> 24 else w >> 32
  }

  /** Byte 8 and byte 9 of a long varint supply bits 56..62 and bit 63. */
  function NinthGroup(value: bv64, b: bv8): bv64 { value | ((b & 0x7F) as bv64 << 56) }

  function TenthGroup64(value: bv64, b: bv8): bv64 { value | (b as bv64 << 63) }

  /** The terminator marks of a word: the top bit of each byte that ends a varint. */
  function Stops(w: bv64): bv64 { !w & MSB }

  /** The word's bits up to and including the first terminator's mark. */
  function FirstValue(w: bv64): bv64 {
    var stop := Stops(w);
    Compact7(w & (stop ^ (stop - 1)) & LOW7)
  }

  predicate AllContinue(w: bv64) { w & MSB == MSB }

  predicate NoneContinue(w: bv64) { w & MSB == 0 }

  /** Four two-byte varints. */
  predicate IsFourPairs(w: bv64) { w & MSB == 0x0080008000800080 }

  function PairValues(w: bv64): bv64 {
    var x := w & LOW7;
    (x & 0x007F007F007F007F) | ((x & 0x7F007F007F007F00) >> 1)
  }

  /** Value k of the four: the cast to 16 bits of the word shifted down. */
  function PairValue(w: bv64, k: nat): bv64
    requires k < 4
  {
    var y := PairValues(w);
    (if k == 0 then y else if k == 1 then y >> 16 else if k == 2 then y >> 32 else y >> 48) & 0xFFFF
  }

  // ---- closed-form identities on eight bytes -------------------------------------------------

  lemma Value1(b0: bv8, b1: bv8, b2: bv8, b3: bv8, b4: bv8, b5: bv8, b6: bv8, b7: bv8)
    ensures WordValue(Gather(b0, b1, b2, b3, b4, b5, b6, b7), 1)
         == Join(Low7(b0), Up7(0))
  {
  }

  lemma Value2(b0: bv8, b1: bv8, b2: bv8, b3: bv8, b4: bv8, b5: bv8, b6: bv8, b7: bv8)
    ensures WordValue(Gather(b0, b1, b2, b3, b4, b5, b6, b7), 2)
         == Join(Low7(b0), Up7(Join(Low7(b1), Up7(0))))
  {
  }

  lemma Value3(b0: bv8, b1: bv8, b2: bv8, b3: bv8, b4: bv8, b5: bv8, b6: bv8, b7: bv8)
    ensures WordValue(Gather(b0, b1, b2, b3, b4, b5, b6, b7), 3)
         == Join(Low7(b0), Up7(Join(Low7(b1), Up7(Join(Low7(b2), Up7(0))))))
  {
  }

  lemma Value4(b0: bv8, b1: bv8, b2: bv8, b3: bv8, b4: bv8, b5: bv8, b6: bv8, b7: bv8)
    ensures WordValue(Gather(b0, b1, b2, b3, b4, b5, b6, b7), 4)
         == Join(Low7(b0), Up7(Join(Low7(b1), Up7(Join(Low7(b2), Up7(Join(Low7(b3), Up7(0))))))))
  {
  }

  lemma Value5(b0: bv8, b1: bv8, b2: bv8, b3: bv8, b4: bv8, b5: bv8, b6: bv8, b7: bv8)
    ensures WordValue(Gather(b0, b1, b2, b3, b4, b5, b6, b7), 5)
         == Join(Low7(b0), Up7(Join(Low7(b1), Up7(Join(Low7(b2), Up7(Join(Low7(b3), Up7(Join(Low7(b4), Up7(0))))))))))
  {
  }

  lemma Value6(b0: bv8, b1: bv8, b2: bv8, b3: bv8, b4: bv8, b5: bv8, b6: bv8, b7: bv8)
    ensures WordValue(Gather(b0, b1, b2, b3, b4, b5, b6, b7), 6)
         == Join(Low7(b0), Up7(Join(Low7(b1), Up7(Join(Low7(b2), Up7(Join(Low7(b3), Up7(Join(Low7(b4), Up7(Join(Low7(b5), Up7(0))))))))))))
  {
  }

  lemma Value7(b0: bv8, b1: bv8, b2: bv8, b3: bv8, b4: bv8, b5: bv8, b6: bv8, b7: bv8)
    ensures WordValue(Gather(b0, b1, b2, b3, b4, b5, b6, b7), 7)
         == Join(Low7(b0), Up7(Join(Low7(b1), Up7(Join(Low7(b2), Up7(Join(Low7(b3), Up7(Join(Low7(b4), Up7(Join(Low7(b5), Up7(Join(Low7(b6), Up7(0))))))))))))))
  {
  }

  lemma Value8(b0: bv8, b1: bv8, b2: bv8, b3: bv8, b4: bv8, b5: bv8, b6: bv8, b7: bv8)
    ensures WordValue(Gather(b0, b1, b2, b3, b4, b5, b6, b7), 8)
         == Join(Low7(b0), Up7(Join(Low7(b1), Up7(Join(Low7(b2), Up7(Join(Low7(b3), Up7(Join(Low7(b4), Up7(Join(Low7(b5), Up7(Join(Low7(b6), Up7(Join(Low7(b7), Up7(0))))))))))))))))
  {
  }

  /** The value in the low n bytes of the word at q is the base-128 value of those bytes. */
  lemma WordIsGroups(s: seq<bv8>, q: nat, n: nat)
    requires q + 8 <= |s| && 1 <= n <= 8
    ensures WordValue(Load64(s, q), n) == Base128(s, q, n)
  {
    hide WordValue, Gather, Join, Up7, Low7;
    match n {
      case 1 => Value1(s[q], s[q + 1], s[q + 2], s[q + 3], s[q + 4], s[q + 5], s[q + 6], s[q + 7]);  assert Base128(s, q + 1, 0) == 0;
      case 2 => Value2(s[q], s[q + 1], s[q + 2], s[q + 3], s[q + 4], s[q + 5], s[q + 6], s[q + 7]); Unroll(s, q, 0);
      case 3 => Value3(s[q], s[q + 1], s[q + 2], s[q + 3], s[q + 4], s[q + 5], s[q + 6], s[q + 7]); Unroll(s, q, 1); assert Base128(s, q + 3, 0) == 0;
      case 4 => Value4(s[q], s[q + 1], s[q + 2], s[q + 3], s[q + 4], s[q + 5], s[q + 6], s[q + 7]); Unroll(s, q, 2); Unroll(s, q + 2, 0);
      case 5 => Value5(s[q], s[q + 1], s[q + 2], s[q + 3], s[q + 4], s[q + 5], s[q + 6], s[q + 7]); Unroll(s, q, 3); Unroll(s, q + 2, 1); assert Base128(s, q + 5, 0) == 0;
      case 6 => Value6(s[q], s[q + 1], s[q + 2], s[q + 3], s[q + 4], s[q + 5], s[q + 6], s[q + 7]); Unroll(s, q, 4); Unroll(s, q + 2, 2); Unroll(s, q + 4, 0);
      case 7 => Value7(s[q], s[q + 1], s[q + 2], s[q + 3], s[q + 4], s[q + 5], s[q + 6], s[q + 7]); Unroll(s, q, 5); Unroll(s, q + 2, 3); Unroll(s, q + 4, 1); assert Base128(s, q + 7, 0) == 0;
      case 8 => Value8(s[q], s[q + 1], s[q + 2], s[q + 3], s[q + 4], s[q + 5], s[q + 6], s[q + 7]); Unroll(s, q, 6); Unroll(s, q + 2, 4); Unroll(s, q + 4, 2); Unroll(s, q + 6, 0);
    }
  }

  lemma Unroll(s: seq<bv8>, q: nat, k: nat)
    requires q + k + 2 <= |s|
    ensures Base128(s, q, k + 2) == Join(Low7(s[q]), Up7(Join(Low7(s[q + 1]), Up7(Base128(s, q + 2, k)))))
    ensures k == 1 ==> Base128(s, q + 2, k) == Join(Low7(s[q + 2]), Up7(0))
  {
    hide Join, Up7, Low7;
    assert Base128(s, q + 1, k + 1) == Join(Low7(s[q + 1]), Up7(Base128(s, q + 2, k)));
    if k == 1 {
      assert Base128(s, q + 3, 0) == 0;
    }
  }

  // ---- what the guards see -------------------------------------------------------------------

  lemma Marks3(b0: bv8, b1: bv8, b2: bv8, b3: bv8, b4: bv8, b5: bv8, b6: bv8, b7: bv8)
    ensures IsOneVarint(Gather(b0, b1, b2, b3, b4, b5, b6, b7), 3) <==> Continues(b0) && Continues(b1) && !Continues(b2)
  {
  }

  lemma Marks4(b0: bv8, b1: bv8, b2: bv8, b3: bv8, b4: bv8, b5: bv8, b6: bv8, b7: bv8)
    ensures IsOneVarint(Gather(b0, b1, b2, b3, b4, b5, b6, b7), 4) <==> Continues(b0) && Continues(b1) && Continues(b2) && !Continues(b3)
  {
  }

  lemma Marks5(b0: bv8, b1: bv8, b2: bv8, b3: bv8, b4: bv8, b5: bv8, b6: bv8, b7: bv8)
    ensures IsOneVarint(Gather(b0, b1, b2, b3, b4, b5, b6, b7), 5) <==> Continues(b0) && Continues(b1) && Continues(b2) && Continues(b3) && !Continues(b4)
  {
  }

  lemma Marks6(b0: bv8, b1: bv8, b2: bv8, b3: bv8, b4: bv8, b5: bv8, b6: bv8, b7: bv8)
    ensures IsOneVarint(Gather(b0, b1, b2, b3, b4, b5, b6, b7), 6) <==> Continues(b0) && Continues(b1) && Continues(b2) && Continues(b3) && Continues(b4) && !Continues(b5)
  {
  }

  lemma Marks7(b0: bv8, b1: bv8, b2: bv8, b3: bv8, b4: bv8, b5: bv8, b6: bv8, b7: bv8)
    ensures IsOneVarint(Gather(b0, b1, b2, b3, b4, b5, b6, b7), 7) <==> Continues(b0) && Continues(b1) && Continues(b2) && Continues(b3) && Continues(b4) && Continues(b5) && !Continues(b6)
  {
  }

  lemma Marks8(b0: bv8, b1: bv8, b2: bv8, b3: bv8, b4: bv8, b5: bv8, b6: bv8, b7: bv8)
    ensures IsOneVarint(Gather(b0, b1, b2, b3, b4, b5, b6, b7), 8) <==> Continues(b0) && Continues(b1) && Continues(b2) && Continues(b3) && Continues(b4) && Continues(b5) && Continues(b6) && !Continues(b7)
  {
  }

  lemma TwoMarks3(b0: bv8, b1: bv8, b2: bv8, b3: bv8, b4: bv8, b5: bv8, b6: bv8, b7: bv8)
    ensures IsTwoVarints(Gather(b0, b1, b2, b3, b4, b5, b6, b7), 3) <==> Continues(b0) && Continues(b1) && !Continues(b2) && Continues(b3) && Continues(b4) && !Continues(b5)
  {
    var m := MSB & LowByteMask(3);
    UpWords(m);
    UpWords(m ^ UpBytes(0x80, 2));
  }

  lemma TwoMarks4(b0: bv8, b1: bv8, b2: bv8, b3: bv8, b4: bv8, b5: bv8, b6: bv8, b7: bv8)
    ensures IsTwoVarints(Gather(b0, b1, b2, b3, b4, b5, b6, b7), 4) <==> Continues(b0) && Continues(b1) && Continues(b2) && !Continues(b3) && Continues(b4) && Continues(b5) && Continues(b6) && !Continues(b7)
  {
    var m := MSB & LowByteMask(4);
    UpWords(m);
    UpWords(m ^ UpBytes(0x80, 3));
  }

  lemma PairMarks(b0: bv8, b1: bv8, b2: bv8, b3: bv8, b4: bv8, b5: bv8, b6: bv8, b7: bv8)
    ensures IsFourPairs(Gather(b0, b1, b2, b3, b4, b5, b6, b7)) <==> Continues(b0) && !Continues(b1) && Continues(b2) && !Continues(b3) && Continues(b4) && !Continues(b5) && Continues(b6) && !Continues(b7)
  {
  }

  lemma AllMarks(b0: bv8, b1: bv8, b2: bv8, b3: bv8, b4: bv8, b5: bv8, b6: bv8, b7: bv8)
    ensures AllContinue(Gather(b0, b1, b2, b3, b4, b5, b6, b7)) <==> Continues(b0) && Continues(b1) && Continues(b2) && Continues(b3) && Continues(b4) && Continues(b5) && Continues(b6) && Continues(b7)
    ensures NoneContinue(Gather(b0, b1, b2, b3, b4, b5, b6, b7)) <==> !Continues(b0) && !Continues(b1) && !Continues(b2) && !Continues(b3) && !Continues(b4) && !Continues(b5) && !Continues(b6) && !Continues(b7)
  {
  }

  lemma SecondValue(b0: bv8, b1: bv8, b2: bv8, b3: bv8, b4: bv8, b5: bv8, b6: bv8, b7: bv8)
    ensures WordValue(DownBytes(Gather(b0, b1, b2, b3, b4, b5, b6, b7), 3), 3) == Join(Low7(b3), Up7(Join(Low7(b4), Up7(Join(Low7(b5), Up7(0))))))
    ensures WordValue(DownBytes(Gather(b0, b1, b2, b3, b4, b5, b6, b7), 4), 4) == Join(Low7(b4), Up7(Join(Low7(b5), Up7(Join(Low7(b6), Up7(Join(Low7(b7), Up7(0))))))))
  {
  }

  lemma PairGroups(b0: bv8, b1: bv8, b2: bv8, b3: bv8, b4: bv8, b5: bv8, b6: bv8, b7: bv8)
    ensures PairValue(Gather(b0, b1, b2, b3, b4, b5, b6, b7), 0) == Join(Low7(b0), Up7(Join(Low7(b1), Up7(0))))
    ensures PairValue(Gather(b0, b1, b2, b3, b4, b5, b6, b7), 1) == Join(Low7(b2), Up7(Join(Low7(b3), Up7(0))))
    ensures PairValue(Gather(b0, b1, b2, b3, b4, b5, b6, b7), 2) == Join(Low7(b4), Up7(Join(Low7(b5), Up7(0))))
    ensures PairValue(Gather(b0, b1, b2, b3, b4, b5, b6, b7), 3) == Join(Low7(b6), Up7(Join(Low7(b7), Up7(0))))
  {
  }

  lemma Value9(b0: bv8, b1: bv8, b2: bv8, b3: bv8, b4: bv8, b5: bv8, b6: bv8, b7: bv8, b8: bv8)
    ensures NinthGroup(WordValue(Gather(b0, b1, b2, b3, b4, b5, b6, b7), 8), b8)
         == Join(Low7(b0), Up7(Join(Low7(b1), Up7(Join(Low7(b2), Up7(Join(Low7(b3), Up7(Join(Low7(b4), Up7(Join(Low7(b5), Up7(Join(Low7(b6), Up7(Join(Low7(b7), Up7(Join(Low7(b8), Up7(0))))))))))))))))))
  {
  }

  lemma Value10(b0: bv8, b1: bv8, b2: bv8, b3: bv8, b4: bv8, b5: bv8, b6: bv8, b7: bv8, b8: bv8, b9: bv8)
    requires FitsBit63(b9)
    ensures TenthGroup64(NinthGroup(WordValue(Gather(b0, b1, b2, b3, b4, b5, b6, b7), 8), b8), b9)
         == Join(Low7(b0), Up7(Join(Low7(b1), Up7(Join(Low7(b2), Up7(Join(Low7(b3), Up7(Join(Low7(b4), Up7(Join(Low7(b5), Up7(Join(Low7(b6), Up7(Join(Low7(b7), Up7(Join(Low7(b8), Up7(Join(Low7(b9), Up7(0))))))))))))))))))))
  {
  }

  // ---- words against the reference reader ----------------------------------------------------

  /** The n bytes at q are one varint: all but the last continue. */
  ghost predicate OneVarintBytes(s: seq<bv8>, q: nat, n: nat)
    requires n >= 1 && q + n <= |s|
  {
    (forall i :: q <= i < q + n - 1 ==> Continues(s[i])) && !Continues(s[q + n - 1])
  }

  lemma OneVarintReads(s: seq<bv8>, q: nat, n: nat)
    requires 1 <= n <= 9 && q + n <= |s| && OneVarintBytes(s, q, n)
    ensures VarintAt(s, q, |s|) == Done(Base128(s, q, n), q + n)
  {
    VarintIs(s, q, |s|, n - 1);
  }

  lemma OneVarintWord(s: seq<bv8>, q: nat, n: nat)
    requires q + 8 <= |s| && 3 <= n <= 8
    ensures IsOneVarint(Load64(s, q), n) <==> OneVarintBytes(s, q, n)
    ensures IsOneVarint(Load64(s, q), n) ==> VarintAt(s, q, |s|) == Done(WordValue(Load64(s, q), n), q + n)
  {
    hide Gather, IsOneVarint, WordValue, Continues, Base128;
    match n {
      case 3 => Marks3(s[q], s[q + 1], s[q + 2], s[q + 3], s[q + 4], s[q + 5], s[q + 6], s[q + 7]);
      case 4 => Marks4(s[q], s[q + 1], s[q + 2], s[q + 3], s[q + 4], s[q + 5], s[q + 6], s[q + 7]);
      case 5 => Marks5(s[q], s[q + 1], s[q + 2], s[q + 3], s[q + 4], s[q + 5], s[q + 6], s[q + 7]);
      case 6 => Marks6(s[q], s[q + 1], s[q + 2], s[q + 3], s[q + 4], s[q + 5], s[q + 6], s[q + 7]);
      case 7 => Marks7(s[q], s[q + 1], s[q + 2], s[q + 3], s[q + 4], s[q + 5], s[q + 6], s[q + 7]);
      case 8 => Marks8(s[q], s[q + 1], s[q + 2], s[q + 3], s[q + 4], s[q + 5], s[q + 6], s[q + 7]);
    }
    if IsOneVarint(Load64(s, q), n) {
      OneVarintReads(s, q, n);
      WordIsGroups(s, q, n);
    }
  }

  /** The pattern test for two varints of n bytes, and their values. */
  lemma TwoVarintWord(s: seq<bv8>, q: nat, n: nat)
    requires q + 8 <= |s| && 3 <= n <= 4
    ensures IsTwoVarints(Load64(s, q), n) <==> OneVarintBytes(s, q, n) && OneVarintBytes(s, q + n, n)
    ensures IsTwoVarints(Load64(s, q), n) ==>
              && VarintAt(s, q, |s|) == Done(WordValue(Load64(s, q), n), q + n)
              && VarintAt(s, q + n, |s|) == Done(WordValue(DownBytes(Load64(s, q), n), n), q + 2 * n)
  {
    hide Gather, IsTwoVarints, WordValue, DownBytes, Continues, VarintAt;
    match n {
      case 3 => TwoMarks3(s[q], s[q + 1], s[q + 2], s[q + 3], s[q + 4], s[q + 5], s[q + 6], s[q + 7]);
      case 4 => TwoMarks4(s[q], s[q + 1], s[q + 2], s[q + 3], s[q + 4], s[q + 5], s[q + 6], s[q + 7]);
    }
    if IsTwoVarints(Load64(s, q), n) {
      TwoVarintValues(s, q, n);
    }
  }

  lemma TwoVarintValues(s: seq<bv8>, q: nat, n: nat)
    requires q + 8 <= |s| && 3 <= n <= 4 && IsTwoVarints(Load64(s, q), n)
    ensures VarintAt(s, q, |s|) == Done(WordValue(Load64(s, q), n), q + n)
    ensures VarintAt(s, q + n, |s|) == Done(WordValue(DownBytes(Load64(s, q), n), n), q + 2 * n)
  {
    hide Gather, IsTwoVarints, WordValue, DownBytes, Continues, Join, Up7, Low7;
    match n {
      case 3 => TwoMarks3(s[q], s[q + 1], s[q + 2], s[q + 3], s[q + 4], s[q + 5], s[q + 6], s[q + 7]); Unroll(s, q + 3, 1);
      case 4 => TwoMarks4(s[q], s[q + 1], s[q + 2], s[q + 3], s[q + 4], s[q + 5], s[q + 6], s[q + 7]); Unroll(s, q + 4, 2); Unroll(s, q + 6, 0);
    }
    SecondValue(s[q], s[q + 1], s[q + 2], s[q + 3], s[q + 4], s[q + 5], s[q + 6], s[q + 7]);
    OneVarintReads(s, q, n);
    WordIsGroups(s, q, n);
    OneVarintReads(s, q + n, n);
  }

  lemma NineByteWord(s: seq<bv8>, q: nat)
    requires q + 9 <= |s| && AllContinue(Load64(s, q)) && !Continues(s[q + 8])
    ensures VarintAt(s, q, |s|) == Done(NinthGroup(WordValue(Load64(s, q), 8), s[q + 8]), q + 9)
  {
    hide Gather, AllContinue, NoneContinue, WordValue, NinthGroup, Continues, Join, Up7, Low7;
    AllMarks(s[q], s[q + 1], s[q + 2], s[q + 3], s[q + 4], s[q + 5], s[q + 6], s[q + 7]);
    OneVarintReads(s, q, 9);
    Value9(s[q], s[q + 1], s[q + 2], s[q + 3], s[q + 4], s[q + 5], s[q + 6], s[q + 7], s[q + 8]);
    Unroll(s, q, 7); Unroll(s, q + 2, 5); Unroll(s, q + 4, 3); Unroll(s, q + 6, 1);
  }

  lemma TenByteWord(s: seq<bv8>, q: nat)
    requires q + 10 <= |s| && AllContinue(Load64(s, q)) && Continues(s[q + 8]) && !Continues(s[q + 9]) && FitsBit63(s[q + 9])
    ensures VarintAt(s, q, |s|) == Done(TenthGroup64(NinthGroup(WordValue(Load64(s, q), 8), s[q + 8]), s[q + 9]), q + 10)
  {
    hide Gather, AllContinue, NoneContinue, WordValue, NinthGroup, TenthGroup64, Continues, FitsBit63, Join, Up7, Low7;
    AllMarks(s[q], s[q + 1], s[q + 2], s[q + 3], s[q + 4], s[q + 5], s[q + 6], s[q + 7]);
    RunIs(s, q, |s|, 9);
    Value10(s[q], s[q + 1], s[q + 2], s[q + 3], s[q + 4], s[q + 5], s[q + 6], s[q + 7], s[q + 8], s[q + 9]);
    Unroll(s, q, 8); Unroll(s, q + 2, 6); Unroll(s, q + 4, 4); Unroll(s, q + 6, 2); Unroll(s, q + 8, 0);
  }

  lemma PairIsGroups(s: seq<bv8>, q: nat, k: nat)
    requires q + 8 <= |s| && k < 4
    ensures PairValue(Load64(s, q), k) == Base128(s, q + 2 * k, 2)
  {
    hide Gather, PairValue, Join, Up7, Low7;
    PairGroups(s[q], s[q + 1], s[q + 2], s[q + 3], s[q + 4], s[q + 5], s[q + 6], s[q + 7]);
    Unroll(s, q + 2 * k, 0);
    assert Base128(s, q + 2 * k + 2, 0) == 0;
    match k { case 0 => case 1 => case 2 => case 3 => }
  }

  lemma PairWord(s: seq<bv8>, q: nat, k: nat)
    requires q + 8 <= |s| && k < 4 && IsFourPairs(Load64(s, q))
    ensures VarintAt(s, q + 2 * k, |s|) == Done(PairValue(Load64(s, q), k), q + 2 * k + 2)
  {
    hide Gather, IsFourPairs, PairValue, Continues, Base128;
    PairMarks(s[q], s[q + 1], s[q + 2], s[q + 3], s[q + 4], s[q + 5], s[q + 6], s[q + 7]);
    PairIsGroups(s, q, k);
    OneVarintReads(s, q + 2 * k, 2);
  }

  lemma ByteWord(s: seq<bv8>, q: nat)
    requires q < |s| && !Continues(s[q])
    ensures VarintAt(s, q, |s|) == Done(s[q] as bv64, q + 1)
  {
    hide Continues;
    OneVarintReads(s, q, 1);
    OneByte(s, q);
  }
}
