/** Finding terminators: single bits, count-trailing-zeros, and the 64-byte terminator mask. */
module StopMask {
  import opened Varint
  import opened Swar

  // ---- single bits ---------------------------------------------------------------------------

  function Twice(x: bv64): bv64 { x << 1 }

  function Half(x: bv64): bv64 { x >> 1 }

  /** The word whose only set bit is bit n; no bit at all for n >= 64. */
  function Bit(n: nat): bv64 {
    if n == 0 then 1 else Twice(Bit(n - 1))
  }

  /** The bits of m below bit b, b a single bit (all of m for b == 0). */
  function Under(m: bv64, b: bv64): bv64 { m & (b - 1) }

  predicate Meets(x: bv64, y: bv64) { x & y != 0 }

  predicate Single(b: bv64) { b & (b - 1) == 0 }

  /** n is the position of the lowest set bit of m: what count-trailing-zeros yields. */
  ghost predicate Lowest(m: bv64, n: nat) {
    n < 64 && Meets(m, Bit(n)) && Under(m, Bit(n)) == 0
  }

  lemma TwiceLaws(m: bv64, b: bv64)
    requires Single(b)
    ensures Single(Twice(b))
    ensures b != 0 && !Meets(m, b) && Under(m, b) == 0 ==> Under(m, Twice(b)) == 0
    ensures b != 0 && Under(m, Twice(b)) == 0 ==> Under(m, b) == 0 && !Meets(m, b)
  {
    hide Single, Twice, Meets, Under;
    TwiceSingle(b);
    if b != 0 && !Meets(m, b) && Under(m, b) == 0 {
      TwiceUnder(m, b);
    }
    if b != 0 && Under(m, Twice(b)) == 0 {
      UnderTwice(m, b);
    }
  }

  lemma TwiceSingle(b: bv64)
    requires Single(b)
    ensures Single(Twice(b))
  {
  }

  lemma TwiceUnder(m: bv64, b: bv64)
    requires Single(b) && b != 0 && !Meets(m, b) && Under(m, b) == 0
    ensures Under(m, Twice(b)) == 0
  {
  }

  lemma UnderTwice(m: bv64, b: bv64)
    requires Single(b) && b != 0 && Under(m, Twice(b)) == 0
    ensures Under(m, b) == 0 && !Meets(m, b)
  {
  }

  lemma OneIsSingle()
    ensures Single(1) && Twice(0) == 0
  {
  }

  lemma {:induction false} BitIsSingle(n: nat)
    ensures Single(Bit(n))
  {
    hide Single, Twice, Meets, Under;
    OneIsSingle();
    if n > 0 {
      BitIsSingle(n - 1);
      TwiceLaws(0, Bit(n - 1));
    }
  }

  /** Bits of byte k of a word. */
  lemma {:induction false} BitsOfByte(k: nat)
    requires k < 8
    ensures Bit(8 * k) == UpBytes(1, k)
    ensures Bit(8 * k + 7) == UpBytes(0x80, k)
    decreases k
  {
    hide Twice, Up8, Bit;
    if k > 0 {
      BitsOfByte(k - 1);
      BitUp(8 * k - 8);
      BitUp(8 * k - 1);
    } else {
      LowBits();
    }
  }

  lemma LowBits()
    ensures Bit(0) == 1 && Bit(1) == 2 && Bit(2) == 4 && Bit(3) == 8
    ensures Bit(4) == 16 && Bit(5) == 32 && Bit(6) == 64 && Bit(7) == 128
  {
    BitSteps(0);
  }

  lemma BitUp(n: nat)
    ensures Bit(n + 8) == Up8(Bit(n))
  {
    hide Twice, Up8, Bit;
    BitSteps(n);
    EightTwice(Bit(n));
  }

  lemma EightTwice(x: bv64)
    ensures Twice(Twice(Twice(Twice(Twice(Twice(Twice(Twice(x)))))))) == Up8(x)
  {
  }

  lemma BitSteps(n: nat)
    ensures Bit(n + 1) == Twice(Bit(n)) && Bit(n + 2) == Twice(Bit(n + 1)) && Bit(n + 3) == Twice(Bit(n + 2))
    ensures Bit(n + 4) == Twice(Bit(n + 3)) && Bit(n + 5) == Twice(Bit(n + 4)) && Bit(n + 6) == Twice(Bit(n + 5))
    ensures Bit(n + 7) == Twice(Bit(n + 6)) && Bit(n + 8) == Twice(Bit(n + 7))
  {
    hide Twice;
  }

  lemma TopBit()
    ensures Bit(63) != 0 && Bit(64) == 0
  {
    BitsOfByte(7);
    assert Bit(64) == Twice(Bit(63));
  }

  lemma {:induction false} BitNonZero(n: nat)
    requires n < 64
    ensures Bit(n) != 0
    decreases 64 - n
  {
    hide Twice;
    TopBit();
    OneIsSingle();
    if n < 63 {
      BitNonZero(n + 1);
    }
  }

  // ---- counting trailing zeros ---------------------------------------------------------------

  function DownBits(m: bv64, n: nat): bv64 {
    if n == 0 then m else Half(DownBits(m, n - 1))
  }

  function UpBits(p: bv64, n: nat): bv64
    decreases n
  {
    if n == 0 then p else UpBits(Twice(p), n - 1)
  }

  lemma HalfMeets(x: bv64, p: bv64)
    ensures Meets(Half(x), p) <==> Meets(x, Twice(p))
  {
  }

  lemma {:induction false} DownMeets(m: bv64, p: bv64, n: nat)
    ensures Meets(DownBits(m, n), p) <==> Meets(m, UpBits(p, n))
    decreases n
  {
    hide Half, Twice, Meets;
    if n > 0 {
      HalfMeets(DownBits(m, n - 1), p);
      DownMeets(m, Twice(p), n - 1);
    }
  }

  lemma {:induction false} UpBitsFrom(k: nat, n: nat)
    ensures UpBits(Bit(k), n) == Bit(k + n)
    decreases n
  {
    hide Twice;
    if n > 0 {
      UpBitsFrom(k + 1, n - 1);
    }
  }

  lemma NothingUnder(m: bv64)
    ensures Under(m, 1) == 0
    ensures Under(m, 0) == m
    ensures !Meets(m, 0)
  {
  }

  /** The position of the lowest set bit, found by shifting right until the lowest bit is set. */
  method Ctz64(x: bv64) returns (n: nat)
    requires x != 0
    ensures Lowest(x, n)
  {
    hide Half, Twice, Meets, Under, Single;
    var y := x;
    n := 0;
    NothingUnder(x);
    TopBit();
    DownMeets(x, 1, 0);
    while !Meets(y, 1)
      invariant y == DownBits(x, n) && n <= 64
      invariant Under(x, Bit(n)) == 0
      invariant Meets(y, 1) <==> Meets(x, Bit(n))
      decreases 64 - n
    {
      BitNonZero(n);
      BitIsSingle(n);
      TwiceLaws(x, Bit(n));
      y := Half(y);
      n := n + 1;
      DownMeets(x, 1, n);
      UpBitsFrom(0, n);
    }
  }

  lemma {:induction false} UnderDown(m: bv64, n: nat, n': nat)
    requires n < n' <= 64 && Under(m, Bit(n')) == 0
    ensures !Meets(m, Bit(n))
    decreases n' - n
  {
    hide Twice, Meets, Under, Single;
    BitNonZero(n' - 1);
    BitIsSingle(n' - 1);
    TwiceLaws(m, Bit(n' - 1));
    if n < n' - 1 {
      UnderDown(m, n, n' - 1);
    }
  }

  lemma LowestIsUnique(m: bv64, n: nat, n': nat)
    requires Lowest(m, n) && Lowest(m, n')
    ensures n == n'
  {
    hide Meets, Under;
    if n < n' {
      UnderDown(m, n, n');
    } else if n' < n {
      UnderDown(m, n', n);
    }
  }

  // ---- the terminator mask -------------------------------------------------------------------

  function StopAt(continues: bool, bit: bv64): bv64 { if continues then 0 else bit }

  /** The n mask bits from position a on, for the bytes at q: bit i is set when byte i terminates. */
  function StopRange(s: seq<bv8>, q: nat, a: nat, n: nat): bv64
    requires q + a + n <= |s|
    decreases n
  {
    if n == 0 then 0 else Join(StopAt(Continues(s[q + a]), Bit(a)), StopRange(s, q, a + 1, n - 1))
  }

  /** No carry: the multiply puts the eight marks side by side without one partial product touching another. */
  lemma NoCarry(x: bv64)
    requires x & MSB == x
    ensures x * 0x0002040810204081
         == x | (x << 7) | (x << 14) | (x << 21) | (x << 28) | (x << 35) | (x << 42) | (x << 49)
  {
    assert x * 0x0002040810204081
        == x + (x << 7) + (x << 14) + (x << 21) + (x << 28) + (x << 35) + (x << 42) + (x << 49);
  }

  lemma SideBySide(b0: bv8, b1: bv8, b2: bv8, b3: bv8, b4: bv8, b5: bv8, b6: bv8, b7: bv8, x: bv64)
    requires x == !Gather(b0, b1, b2, b3, b4, b5, b6, b7) & MSB
    ensures x & MSB == x
    ensures (x | (x << 7) | (x << 14) | (x << 21) | (x << 28) | (x << 35) | (x << 42) | (x << 49)) >> 56
         == EightStops(Continues(b0), Continues(b1), Continues(b2), Continues(b3), Continues(b4), Continues(b5), Continues(b6), Continues(b7))
  {
  }

  function EightStops(c0: bool, c1: bool, c2: bool, c3: bool, c4: bool, c5: bool, c6: bool, c7: bool): bv64 {
    Join(StopAt(c0, 1), Join(StopAt(c1, 2), Join(StopAt(c2, 4), Join(StopAt(c3, 8),
      Join(StopAt(c4, 16), Join(StopAt(c5, 32), Join(StopAt(c6, 64), Join(StopAt(c7, 128), 0))))))))
  }

  /** Bit i is set when byte i of the word ends a varint. */
  function EndMarks(w: bv64): bv64 { ByteMask8(!w) }

  lemma ByteMaskIsStops(b0: bv8, b1: bv8, b2: bv8, b3: bv8, b4: bv8, b5: bv8, b6: bv8, b7: bv8)
    ensures EndMarks(Gather(b0, b1, b2, b3, b4, b5, b6, b7)) == EightStops(Continues(b0), Continues(b1), Continues(b2), Continues(b3), Continues(b4), Continues(b5), Continues(b6), Continues(b7))
  {
    hide Gather, EightStops, Continues;
    var x := !Gather(b0, b1, b2, b3, b4, b5, b6, b7) & MSB;
    SideBySide(b0, b1, b2, b3, b4, b5, b6, b7, x);
    NoCarry(x);
  }

  lemma StopUnroll(s: seq<bv8>, q: nat, a: nat, n: nat)
    requires q + a + n + 2 <= |s|
    ensures StopRange(s, q, a, n + 2) == Join(StopAt(Continues(s[q + a]), Bit(a)),
              Join(StopAt(Continues(s[q + a + 1]), Bit(a + 1)), StopRange(s, q, a + 2, n)))
  {
    hide Join, StopAt, Continues, Bit;
    assert StopRange(s, q, a + 1, n + 1) == Join(StopAt(Continues(s[q + a + 1]), Bit(a + 1)), StopRange(s, q, a + 2, n));
  }

  /** The marks of the word at p are the mask bits of its eight bytes. */
  lemma WordAtZero(s: seq<bv8>, p: nat)
    requires p + 8 <= |s|
    ensures EndMarks(Load64(s, p)) == StopRange(s, p, 0, 8)
  {
    hide Gather, EndMarks, Join, StopAt, Continues, Bit;
    LowBits();
    ByteMaskIsStops(s[p], s[p + 1], s[p + 2], s[p + 3], s[p + 4], s[p + 5], s[p + 6], s[p + 7]);
    StopUnroll(s, p, 0, 6);
    StopUnroll(s, p, 2, 4);
    StopUnroll(s, p, 4, 2);
    StopUnroll(s, p, 6, 0);
    assert StopRange(s, p, 8, 0) == 0;
    hide StopRange;
  }

  lemma Up8Joins(x: bv64, y: bv64)
    ensures Up8(Join(x, y)) == Join(Up8(x), Up8(y))
  {
    assert (x | y) << 8 == (x << 8) | (y << 8);
  }

  lemma TwiceUp8(x: bv64)
    ensures Up8(Twice(x)) == Twice(Up8(x))
  {
    assert (x << 1) << 8 == (x << 8) << 1;
  }

  lemma {:induction false} UpJoins(x: bv64, y: bv64, j: nat)
    requires j < 8
    ensures UpBytes(Join(x, y), j) == Join(UpBytes(x, j), UpBytes(y, j))
  {
    hide Join, Up8;
    if j > 0 {
      UpJoins(x, y, j - 1);
      Up8Joins(UpBytes(x, j - 1), UpBytes(y, j - 1));
    }
  }

  lemma {:induction false} UpTwice(x: bv64, j: nat)
    requires j < 8
    ensures UpBytes(Twice(x), j) == Twice(UpBytes(x, j))
  {
    hide Twice, Up8;
    if j > 0 {
      UpTwice(x, j - 1);
      TwiceUp8(UpBytes(x, j - 1));
    }
  }

  lemma {:induction false} UpZero(j: nat)
    requires j < 8
    ensures UpBytes(0, j) == 0
  {
    if j > 0 {
      UpZero(j - 1);
    }
  }

  lemma {:induction false} UpBit(a: nat, j: nat)
    requires j < 8
    ensures UpBytes(Bit(a), j) == Bit(a + 8 * j)
  {
    hide UpBytes, Twice;
    if a == 0 {
      BitsOfByte(j);
    } else {
      UpBit(a - 1, j);
      UpTwice(Bit(a - 1), j);
    }
  }

  /** The mask bits of a word j words further on are its own, moved up by j bytes. */
  lemma {:induction false} UpStops(s: seq<bv8>, q: nat, a: nat, n: nat, j: nat)
    requires j < 8 && q + 8 * j + a + n <= |s|
    ensures UpBytes(StopRange(s, q + 8 * j, a, n), j) == StopRange(s, q, a + 8 * j, n)
    decreases n
  {
    hide UpBytes, Join, Bit, Continues;
    UpZero(j);
    if n > 0 {
      UpStops(s, q, a + 1, n - 1, j);
      UpBit(a, j);
      UpJoins(StopAt(Continues(s[q + 8 * j + a]), Bit(a)), StopRange(s, q + 8 * j, a + 1, n - 1), j);
    }
  }

  lemma WordStops(s: seq<bv8>, q: nat, j: nat)
    requires j < 8 && q + 8 * j + 8 <= |s|
    ensures UpBytes(EndMarks(Load64(s, q + 8 * j)), j) == StopRange(s, q, 8 * j, 8)
  {
    hide Load64, EndMarks, UpBytes, StopRange;
    WordAtZero(s, q + 8 * j);
    UpStops(s, q, 0, 8, j);
  }

  lemma {:induction false} StopConcat(s: seq<bv8>, q: nat, a: nat, n: nat, k: nat)
    requires q + a + n + k <= |s|
    ensures StopRange(s, q, a, n + k) == Join(StopRange(s, q, a, n), StopRange(s, q, a + n, k))
    decreases n
  {
    hide Join, StopAt, Continues, Bit;
    JoinZero(StopRange(s, q, a + n, k));
    if n > 0 {
      StopConcat(s, q, a + 1, n - 1, k);
      JoinAssoc(StopAt(Continues(s[q + a]), Bit(a)), StopRange(s, q, a + 1, n - 1), StopRange(s, q, a + n, k),
        StopRange(s, q, a + 1, n - 1 + k), StopRange(s, q, a, n));
    }
  }

  method StopMask64(s: seq<bv8>, q: nat) returns (m: bv64)
    requires q + 64 <= |s|
    ensures m == StopRange(s, q, 0, 64)
  {
    hide Load64, EndMarks, UpBytes, Join, StopRange;
    NoStopsYet(s, q);
    m := 0;
    for j := 0 to 8
      invariant m == StopRange(s, q, 0, 8 * j)
    {
      WordStops(s, q, j);
      StopConcat(s, q, 0, 8 * j, 8);
      m := Join(m, UpBytes(EndMarks(Load64(s, q + 8 * j)), j));
    }
  }

  lemma NoStopsYet(s: seq<bv8>, q: nat)
    requires q <= |s|
    ensures StopRange(s, q, 0, 0) == 0
  {
  }

  // ---- scanning the mask ---------------------------------------------------------------------

  function ClearLowest(m: bv64): bv64 { m & (m - 1) }

  /** The position of the first terminator at or after a in the 64 bytes at q; 64 if there is none. */
  function NextStop(s: seq<bv8>, q: nat, a: nat): (b: nat)
    requires q + 64 <= |s| && a <= 64
    ensures a <= b <= 64
    ensures forall i :: q + a <= i < q + b ==> Continues(s[i])
    ensures b < 64 ==> !Continues(s[q + b])
    decreases 64 - a
  {
    if a == 64 || !Continues(s[q + a]) then a else NextStop(s, q, a + 1)
  }

  lemma ClearBitsRaw(r: bv64, b: bv64)
    requires b != 0 && b & (b - 1) == 0 && r & ((b << 1) - 1) == 0
    ensures (b | r) & ((b | r) - 1) == r
  {
  }

  lemma LowBitsRaw(r: bv64, b: bv64)
    requires b != 0 && b & (b - 1) == 0 && r & ((b << 1) - 1) == 0
    ensures r & (b - 1) == 0 && (b | r) & (b - 1) == 0 && (b | r) & b != 0
  {
  }

  /** A single bit in front of higher bits is the lowest, and clearing the lowest leaves the higher ones. */
  lemma FrontBit(r: bv64, b: bv64)
    requires Single(b) && Under(r, Twice(b)) == 0 && b != 0
    ensures Under(r, b) == 0 && Under(Join(b, r), b) == 0 && Meets(Join(b, r), b)
    ensures ClearLowest(Join(b, r)) == r
  {
    LowBitsRaw(r, b);
    ClearBitsRaw(r, b);
  }

  /** The mask bits from a on: none below a; the lowest is the next terminator; clearing it moves past it. */
  lemma {:induction false} ScanStops(s: seq<bv8>, q: nat, a: nat)
    requires q + 64 <= |s| && a <= 64
    ensures var m, b := StopRange(s, q, a, 64 - a), NextStop(s, q, a);
            && Under(m, Bit(a)) == 0
            && (b == 64 ==> m == 0)
            && (b < 64 ==> Lowest(m, b) && m != 0 && ClearLowest(m) == StopRange(s, q, b + 1, 63 - b))
    decreases 64 - a
  {
    hide Join, Twice, Single, Meets, Under, ClearLowest, Continues, StopRange, Bit, StopAt;
    if a == 64 {
      NothingUnder(0);
      TopBit();
      NoStopsLeft(s, q);
    } else {
      ScanStops(s, q, a + 1);
      FirstStop(s, q, a);
      if !Continues(s[q + a]) {
        StopHere(StopRange(s, q, a + 1, 63 - a), a);
      } else {
        StopLater(StopRange(s, q, a + 1, 63 - a), a);
      }
    }
  }

  lemma NoStopsLeft(s: seq<bv8>, q: nat)
    requires q + 64 <= |s|
    ensures StopRange(s, q, 64, 0) == 0
  {
  }

  /** The mask from a on, by whether the byte at a terminates. */
  lemma FirstStop(s: seq<bv8>, q: nat, a: nat)
    requires q + 64 <= |s| && a < 64
    ensures var r := StopRange(s, q, a + 1, 63 - a);
            StopRange(s, q, a, 64 - a) == if Continues(s[q + a]) then r else Join(Bit(a), r)
  {
    hide Join, Continues, Bit;
    JoinZero(StopRange(s, q, a + 1, 63 - a));
  }

  lemma StopHere(r: bv64, a: nat)
    requires a < 64 && Under(r, Bit(a + 1)) == 0
    ensures Lowest(Join(Bit(a), r), a) && Join(Bit(a), r) != 0 && ClearLowest(Join(Bit(a), r)) == r
  {
    hide Join, Twice, Single, Meets, Under, ClearLowest;
    BitNonZero(a);
    BitIsSingle(a);
    FrontBit(r, Bit(a));
    NothingMeets(Bit(a));
  }

  lemma StopLater(r: bv64, a: nat)
    requires a < 64 && Under(r, Bit(a + 1)) == 0
    ensures Under(r, Bit(a)) == 0
  {
    hide Join, Twice, Single, Meets, Under, ClearLowest;
    BitNonZero(a);
    BitIsSingle(a);
    FrontBit(r, Bit(a));
  }

  lemma NothingMeets(b: bv64)
    ensures !Meets(0, b) && Under(0, b) == 0
  {
  }
}
