/** Words of 64 bits as integers: shifting up multiplies, and joining disjoint bits adds. */
module Words {

  lemma UpThree(field: bv64)
    requires field < 0x2000_0000_0000_0000
    ensures (field << 3) as nat == 8 * (field as nat)
  {
  }

  lemma JoinThree(field: bv64, low: bv8)
    ensures ((field << 3) | ((low & 7) as bv64)) as nat == (field << 3) as nat + ((low & 7) as bv64) as nat
  {
  }

  lemma LowThree(low: bv8)
    ensures ((low & 7) as bv64) as nat == low as nat % 8
  {
  }

  lemma ThreeBits(field: bv64, low: bv8)
    requires field < 0x2000_0000_0000_0000
    ensures ((field << 3) | ((low & 7) as bv64)) as nat == 8 * (field as nat) + low as nat % 8
  {
    UpThree(field);
    JoinThree(field, low);
    LowThree(low);
  }

  lemma ZeroIs(x: bv64)
    ensures x == 0 <==> x as nat == 0
  {
  }

  function Drop(x: bv64): bv64 { x >> 8 }

  function Low(x: bv64): bv8 { (x & 0xFF) as bv8 }

  lemma UpEight(y: bv64)
    requires y < 0x100_0000_0000_0000
    ensures (y << 8) as nat == 256 * (y as nat)
  {
  }

  lemma JoinEight(y: bv64, b: bv8)
    ensures ((y << 8) | (b as bv64)) as nat == (y << 8) as nat + (b as bv64) as nat
  {
  }

  lemma ByteWide(b: bv8)
    ensures (b as bv64) as nat == b as nat
  {
  }

  function Glue(y: bv64, b: bv8): bv64 { (y << 8) | (b as bv64) }

  predicate RoomFor8(y: bv64) { y < 0x100_0000_0000_0000 }

  lemma GlueIs(y: bv64, b: bv8)
    requires RoomFor8(y)
    ensures Glue(y, b) as nat == 256 * (y as nat) + b as nat
  {
    UpEight(y);
    JoinEight(y, b);
    ByteWide(b);
  }

  lemma Rejoined(x: bv64)
    ensures RoomFor8(Drop(x)) && x == Glue(Drop(x), Low(x))
  {
  }

  /** A word is its last byte and 256 times the word without it. */
  lemma DropIs(x: bv64)
    ensures x as nat == 256 * (Drop(x) as nat) + Low(x) as nat
  {
    hide Drop, Low, Glue, RoomFor8;
    Rejoined(x);
    GlueIs(Drop(x), Low(x));
  }

  /** The byte of a number. */
  function Byte(n: nat): bv8 { if n == 0 then 0 else Byte(n - 1) + 1 }

  lemma NextByte(b: bv8)
    ensures b as nat < 255 ==> (b + 1) as nat == b as nat + 1
  {
  }

  lemma {:induction false} ByteIs(n: nat)
    requires n < 256
    ensures Byte(n) as nat == n
  {
    if n > 0 {
      ByteIs(n - 1);
      NextByte(Byte(n - 1));
    }
  }

  lemma Up29(y: bv64)
    requires y < 0x8_0000_0000
    ensures (y << 29) as nat == 0x2000_0000 * (y as nat)
  {
  }

  lemma Join29(y: bv64, z: bv32)
    ensures ((y << 29) | ((z & 0x1FFF_FFFF) as bv64)) as nat == (y << 29) as nat + ((z & 0x1FFF_FFFF) as bv64) as nat
  {
  }

  lemma Split29(x: bv64)
    ensures x >> 29 < 0x8_0000_0000 && (x >> 29 == 0 <==> x < 0x2000_0000)
    ensures x == (x >> 29 << 29) | ((((x & 0x1FFF_FFFF) as bv32) & 0x1FFF_FFFF) as bv64)
  {
  }

  /** Comparing a word with 2^29 is comparing its number with it. */
  lemma Below29(x: bv64)
    ensures x < 0x2000_0000 <==> x as nat < 0x2000_0000
  {
    if x < 0x2000_0000 {
      SmallBelow(x);
    } else {
      Split29(x);
      Up29(x >> 29);
      Join29(x >> 29, (x & 0x1FFF_FFFF) as bv32);
      ZeroIs(x >> 29);
    }
  }

  lemma SmallBelow(x: bv64)
    requires x < 0x2000_0000
    ensures x as nat < 0x2000_0000
  {
    FourSmall(x);
    hide Drop, Low;
    DropIs(x);
    DropIs(Drop(x));
    DropIs(Drop(Drop(x)));
    DropIs(Drop(Drop(Drop(x))));
    SmallByte(Low(Drop(Drop(Drop(x)))));
    ZeroIs(0);
  }

  lemma FourSmall(x: bv64)
    requires x < 0x2000_0000
    ensures Drop(Drop(Drop(Drop(x)))) == 0 && Low(Drop(Drop(Drop(x)))) < 32
  {
  }

  lemma SmallByte(b: bv8)
    ensures b < 32 <==> b as nat < 32
  {
  }

  lemma SameByte(b: bv8, c: bv8)
    requires b as nat == c as nat
    ensures b == c
  {
  }

  lemma ByteSplit(x: nat, b: nat, y: nat, c: nat)
    requires 256 * x + b == 256 * y + c && b < 256 && c < 256
    ensures x == y && b == c
  {
  }

  function NumberOf(x: bv64): nat { x as nat }

  function ByteNumber(b: bv8): nat { b as nat }

  lemma NumberIs(x: bv64)
    ensures NumberOf(x) == x as nat
  {
  }

  lemma NumberDrops(x: bv64)
    ensures NumberOf(x) == 256 * NumberOf(Drop(x)) + ByteNumber(Low(x)) && ByteNumber(Low(x)) < 256
  {
    DropIs(x);
    hide Drop, Low;
  }

  lemma SameByteNumber(b: bv8, c: bv8)
    requires ByteNumber(b) == ByteNumber(c)
    ensures b == c
  {
    SameByte(b, c);
  }

  lemma SameParts(x: bv64, y: bv64)
    requires NumberOf(x) == NumberOf(y)
    ensures NumberOf(Drop(x)) == NumberOf(Drop(y)) && Low(x) == Low(y)
  {
    hide Drop, Low, NumberOf, ByteNumber;
    NumberDrops(x);
    NumberDrops(y);
    ByteSplit(NumberOf(Drop(x)), ByteNumber(Low(x)), NumberOf(Drop(y)), ByteNumber(Low(y)));
    SameByteNumber(Low(x), Low(y));
  }

  /** The word without its last k bytes. */
  function Dropped(x: bv64, k: nat): bv64 { if k == 0 then x else Dropped(Drop(x), k - 1) }

  lemma EightDrops(x: bv64)
    ensures Dropped(x, 8) == 0
  {
    AllGone(x);
    hide Drop;
    assert Dropped(x, 8) == Dropped(Drop(x), 7) == Dropped(Drop(Drop(x)), 6) == Dropped(Drop(Drop(Drop(x))), 5);
    var y := Drop(Drop(Drop(x)));
    assert Dropped(y, 5) == Dropped(Drop(y), 4) == Dropped(Drop(Drop(y)), 3) == Dropped(Drop(Drop(Drop(y))), 2);
    var z := Drop(Drop(Drop(y)));
    assert Dropped(z, 2) == Dropped(Drop(z), 1) == Dropped(Drop(Drop(z)), 0);
  }

  lemma AllGone(x: bv64)
    ensures Drop(Drop(Drop(Drop(Drop(Drop(Drop(Drop(x)))))))) == 0
  {
  }

  lemma TogetherAgain(x: bv64, y: bv64)
    requires Drop(x) == Drop(y) && Low(x) == Low(y)
    ensures x == y
  {
  }

  lemma {:induction false} SameAfter(x: bv64, y: bv64, k: nat)
    requires NumberOf(x) == NumberOf(y) && Dropped(x, k) == Dropped(y, k)
    ensures x == y
    decreases k
  {
    hide Drop, Low, NumberOf;
    if k > 0 {
      SameParts(x, y);
      SameAfter(Drop(x), Drop(y), k - 1);
      TogetherAgain(x, y);
    }
  }

  /** Words with one number are one word. */
  lemma SameNumber(x: bv64, y: bv64)
    requires x as nat == y as nat
    ensures x == y
  {
    hide Dropped, NumberOf;
    NumberIs(x);
    NumberIs(y);
    EightDrops(x);
    EightDrops(y);
    SameAfter(x, y, 8);
  }
}
