/** Ordering the slots of a struct: descending alignment, then descending size, then a tiebreak; each
  * slot is placed at the next aligned offset. */
module Slots {
  import opened Basics

  // `out` names the member whose offset the slot receives.
  datatype Slot = Slot(size: nat, align: nat, tiebreak: int, out: nat)

  datatype Extent = Extent(size: nat, align: nat)

  // ---------------------------------------------------------------- alignment arithmetic

  predicate IsPowerOfTwo(a: nat)
  {
    a == 1 || (a > 1 && a % 2 == 0 && IsPowerOfTwo(a / 2))
  }

  ghost predicate Divides(a: nat, n: nat)
  {
    exists k: nat :: Times(k, a) == n
  }

  function Times(k: nat, a: nat): nat { k * a }

  /** The rounded-up offset is a multiple, and no multiple from n on is below it. */
  lemma AlignUpIsLeast(n: nat, a: nat)
    requires a > 0
    ensures Divides(a, AlignUp(n, a))
    ensures forall m :: m >= n && Divides(a, m) ==> AlignUp(n, a) <= m
  {
    var q := if n % a == 0 then n / a else n / a + 1;
    assert n == n / a * a + n % a;
    assert (n / a + 1) * a == n / a * a + a;
    assert Times(q, a) == AlignUp(n, a);
    MultiplesAbove(n, a, q);
  }

  lemma MultiplesAbove(n: nat, a: nat, q: nat)
    requires a > 0 && q * a < n + a
    ensures forall m :: m >= n && Divides(a, m) ==> q * a <= m
  {
    forall m | m >= n && Divides(a, m) ensures q * a <= m {
      var k: nat :| Times(k, a) == m;
      if k < q {
        Scales(k + 1, q, a);
      } else {
        Scales(q, k, a);
      }
    }
  }

  lemma SumDivides(a: nat, m: nat, n: nat)
    requires Divides(a, m) && Divides(a, n)
    ensures Divides(a, m + n)
  {
    var j: nat :| Times(j, a) == m;
    var k: nat :| Times(k, a) == n;
    assert Times(j + k, a) == m + n by { assert (j + k) * a == j * a + k * a; }
  }

  lemma DividesThrough(a: nat, b: nat, n: nat)
    requires Divides(a, b) && Divides(b, n)
    ensures Divides(a, n)
  {
    var j: nat :| Times(j, a) == b;
    var k: nat :| Times(k, b) == n;
    assert Times(k * j, a) == n by { assert k * j * a == k * (j * a); }
  }

  lemma ZeroDivides(a: nat)
    ensures Divides(a, 0)
  {
    assert Times(0, a) == 0;
  }

  /** Of two powers of two, the smaller divides the greater. */
  lemma {:induction false} PowersDivide(a: nat, b: nat)
    requires IsPowerOfTwo(a) && IsPowerOfTwo(b) && a <= b
    ensures Divides(a, b)
  {
    if a == 1 {
      assert Times(b, 1) == b;
    } else {
      PowersDivide(a / 2, b / 2);
      var k: nat :| Times(k, a / 2) == b / 2;
      assert Times(k, a) == b by { assert k * (2 * (a / 2)) == 2 * (k * (a / 2)); }
    }
  }

  // ---------------------------------------------------------------- the order

  predicate Before(x: Slot, y: Slot)
  {
    if x.align != y.align then x.align > y.align
    else if x.size != y.size then x.size > y.size
    else if x.tiebreak != y.tiebreak then x.tiebreak < y.tiebreak
    else x.out <= y.out
  }

  function Insert(x: Slot, s: seq<Slot>): (r: seq<Slot>)
    ensures multiset(r) == multiset(s) + multiset{x}
  {
    if s == [] then [x]
    else if Before(x, s[0]) then [x] + s
    else
      assert s == [s[0]] + s[1..];
      [s[0]] + Insert(x, s[1..])
  }

  /** The slots in the order they are placed. */
  function Sort(s: seq<Slot>): (r: seq<Slot>)
    ensures multiset(r) == multiset(s)
  {
    if s == [] then [] else
      assert s == [s[0]] + s[1..];
      Insert(s[0], Sort(s[1..]))
  }

  ghost predicate Sorted(s: seq<Slot>)
  {
    forall i, j :: 0 <= i < j < |s| ==> Before(s[i], s[j])
  }

  lemma {:induction false} InsertSorts(x: Slot, s: seq<Slot>)
    requires Sorted(s)
    ensures Sorted(Insert(x, s))
  {
    if s != [] && !Before(x, s[0]) {
      InsertSorts(x, s[1..]);
      var r := Insert(x, s[1..]);
      forall j | 0 <= j < |r| ensures Before(s[0], r[j]) {
        assert r[j] in multiset(r);
        assert r[j] in multiset(s[1..]) || r[j] == x;
      }
    }
  }

  lemma {:induction false} SortSorts(s: seq<Slot>)
    ensures Sorted(Sort(s))
  {
    if s != [] {
      SortSorts(s[1..]);
      InsertSorts(s[0], Sort(s[1..]));
    }
  }

  /** The order chosen is of the same slots, by descending alignment, then descending size, then the tiebreak. */
  lemma SortMeans(s: seq<Slot>)
    ensures multiset(Sort(s)) == multiset(s)
    ensures forall i, j :: 0 <= i < j < |Sort(s)| ==>
              var a, b := Sort(s)[i], Sort(s)[j];
              && a.align >= b.align && (a.align == b.align ==> a.size >= b.size)
              && (a.align == b.align && a.size == b.size ==> a.tiebreak <= b.tiebreak)
              && (a.align == b.align && a.size == b.size && a.tiebreak == b.tiebreak ==> a.out <= b.out)
  {
    SortSorts(s);
  }

  // ---------------------------------------------------------------- placement

  ghost predicate Aligns(s: seq<Slot>)
  {
    forall i :: 0 <= i < |s| ==> s[i].align > 0
  }

  /** The cursor after the slots, placed in this order from `cursor` on. */
  function Placed(s: seq<Slot>, cursor: nat): (r: nat)
    requires forall i :: 0 <= i < |s| ==> s[i].align > 0
    ensures r >= cursor
    decreases |s|
  {
    if s == [] then cursor
    else
      var n := |s| - 1;
      AlignUp(Placed(s[..n], cursor), s[n].align) + s[n].size
  }

  /** The offset of the k-th slot in this order. */
  function OffsetOf(s: seq<Slot>, k: nat): nat
    requires k < |s| && forall i :: 0 <= i < |s| ==> s[i].align > 0
  {
    AlignUp(Placed(s[..k], 0), s[k].align)
  }

  function MaxAlign(s: seq<Slot>): (r: nat)
    ensures r >= 1 && forall i :: 0 <= i < |s| ==> s[i].align <= r
    ensures r == 1 || exists i :: 0 <= i < |s| && s[i].align == r
  {
    if s == [] then 1
    else
      var m := MaxAlign(s[..|s| - 1]);
      if s[|s| - 1].align > m then s[|s| - 1].align else m
  }

  /** The size and alignment of the struct with the slots in this order; an empty struct is one byte. */
  function ExtentOf(s: seq<Slot>): Extent
    requires forall i :: 0 <= i < |s| ==> s[i].align > 0
  {
    var end := Placed(s, 0);
    Extent(if end == 0 then 1 else AlignUp(end, MaxAlign(s)), MaxAlign(s))
  }

  function Sum(s: seq<Slot>): nat
  {
    if s == [] then 0 else Sum(s[..|s| - 1]) + s[|s| - 1].size
  }

  /** In any order, each slot ends before the next one starts, is aligned, and lies in the struct. */
  lemma {:induction false} OffsetsAreDisjoint(s: seq<Slot>, i: nat, j: nat)
    requires Aligns(s) && i < j < |s|
    ensures OffsetOf(s, i) + s[i].size <= OffsetOf(s, j)
    decreases j
  {
    var t := s[..j];
    assert Placed(t, 0) == AlignUp(Placed(t[..j - 1], 0), t[j - 1].align) + t[j - 1].size;
    assert t[..j - 1] == s[..j - 1];
    if i < j - 1 {
      OffsetsAreDisjoint(s, i, j - 1);
    }
  }

  lemma OffsetInStruct(s: seq<Slot>, i: nat)
    requires Aligns(s) && i < |s|
    ensures Divides(s[i].align, OffsetOf(s, i))
    ensures OffsetOf(s, i) + s[i].size <= ExtentOf(s).size
  {
    hide AlignUp;
    var n := |s| - 1;
    AlignUpIsLeast(Placed(s[..i], 0), s[i].align);
    assert Placed(s, 0) == AlignUp(Placed(s[..n], 0), s[n].align) + s[n].size;
    assert OffsetOf(s, n) + s[n].size == Placed(s, 0);
    if i < n {
      OffsetsAreDisjoint(s, i, n);
    }
  }

  // ---------------------------------------------------------------- no padding, least total

  ghost predicate WellSized(s: seq<Slot>)
  {
    forall i :: 0 <= i < |s| ==> IsPowerOfTwo(s[i].align) && Divides(s[i].align, s[i].size)
  }

  /** No byte lies between one slot and the next. */
  ghost predicate NoPadding(s: seq<Slot>)
    requires Aligns(s)
  {
    forall k :: 0 <= k < |s| ==> OffsetOf(s, k) == Sum(s[..k])
  }

  lemma AlreadyAligned(n: nat, a: nat)
    requires a > 0 && Divides(a, n)
    ensures AlignUp(n, a) == n
  {
    AlignUpIsLeast(n, a);
  }

  /** Placed in descending alignment, well-sized slots leave the cursor aligned for every later one. */
  lemma {:induction false} CursorStaysAligned(s: seq<Slot>, a: nat)
    requires WellSized(s) && Sorted(s) && IsPowerOfTwo(a)
    requires forall i :: 0 <= i < |s| ==> s[i].align >= a
    ensures Aligns(s) && Placed(s, 0) == Sum(s) && Divides(a, Sum(s))
    decreases |s|
  {
    assert Aligns(s);
    ZeroDivides(a);
    if s != [] {
      var n := |s| - 1;
      CursorStaysAligned(s[..n], s[n].align);
      AlreadyAligned(Sum(s[..n]), s[n].align);
      PowersDivide(a, s[n].align);
      SumDivides(s[n].align, Sum(s[..n]), s[n].size);
      DividesThrough(a, s[n].align, Sum(s));
    }
  }

  lemma SortedHasNoPadding(s: seq<Slot>)
    requires WellSized(s) && Sorted(s)
    ensures Aligns(s) && NoPadding(s)
  {
    forall k | 0 <= k < |s| ensures Aligns(s) && OffsetOf(s, k) == Sum(s[..k]) {
      CursorStaysAligned(s[..k], s[k].align);
      AlreadyAligned(Sum(s[..k]), s[k].align);
    }
  }

  lemma {:induction false} PlacedIsAtLeastSum(s: seq<Slot>)
    requires Aligns(s)
    ensures Placed(s, 0) >= Sum(s)
    decreases |s|
  {
    if s != [] {
      PlacedIsAtLeastSum(s[..|s| - 1]);
    }
  }

  lemma {:induction false} SumIgnoresOrder(s: seq<Slot>, t: seq<Slot>)
    requires multiset(s) == multiset(t)
    ensures Sum(s) == Sum(t)
    decreases |s|
  {
    hide Sum;
    if s == [] {
      assert |multiset(t)| == 0;
    } else {
      var x, n := s[|s| - 1], |s| - 1;
      assert x in multiset(t);
      var k :| 0 <= k < |t| && t[k] == x;
      var u := t[..k] + t[k + 1..];
      SumWithout(t, k);
      SumLast(s);
      LastOut(s, t, k);
      SumIgnoresOrder(s[..n], u);
    }
  }

  lemma SumLast(s: seq<Slot>)
    requires s != []
    ensures Sum(s) == Sum(s[..|s| - 1]) + s[|s| - 1].size
  {
  }

  lemma LastOut(s: seq<Slot>, t: seq<Slot>, k: nat)
    requires s != [] && multiset(s) == multiset(t) && k < |t| && t[k] == s[|s| - 1]
    ensures multiset(s[..|s| - 1]) == multiset(t[..k] + t[k + 1..])
  {
    var x := t[k];
    assert s == s[..|s| - 1] + [x];
    assert t == t[..k] + [x] + t[k + 1..];
    assert multiset(s[..|s| - 1]) == multiset(s) - multiset{x};
    assert multiset(t[..k] + t[k + 1..]) == multiset(t) - multiset{x};
  }

  lemma {:induction false} SumWithout(t: seq<Slot>, k: nat)
    requires k < |t|
    ensures Sum(t) == Sum(t[..k] + t[k + 1..]) + t[k].size
    decreases |t|
  {
    var n := |t| - 1;
    var u := t[..k] + t[k + 1..];
    if k == n {
      assert u == t[..n];
    } else {
      SumWithout(t[..n], k);
      assert u[..|u| - 1] == t[..n][..k] + t[..n][k + 1..];
    }
  }

  lemma MaxAlignIgnoresOrder(s: seq<Slot>, t: seq<Slot>)
    requires multiset(s) == multiset(t)
    ensures MaxAlign(s) <= MaxAlign(t)
  {
    if MaxAlign(s) > 1 {
      var i :| 0 <= i < |s| && s[i].align == MaxAlign(s);
      assert s[i] in multiset(t);
    }
  }

  /** The order chosen leaves no padding between slots, and no other order gives a smaller struct. */
  lemma SortIsOptimal(s: seq<Slot>, other: seq<Slot>)
    requires WellSized(s) && multiset(other) == multiset(s)
    ensures Aligns(Sort(s)) && Aligns(other)
    ensures NoPadding(Sort(s))
    ensures ExtentOf(Sort(s)).size <= ExtentOf(other).size
    ensures ExtentOf(Sort(s)).align == ExtentOf(other).align
  {
    var r := Sort(s);
    SortSorts(s);
    SameShape(s, r);
    SameShape(s, other);
    SortedHasNoPadding(r);
    NoPaddingIsLeast(r, other);
    MaxAlignIgnoresOrder(r, other);
    MaxAlignIgnoresOrder(other, r);
  }

  lemma AlignUpMonotone(m: nat, n: nat, a: nat)
    requires m <= n && a > 0
    ensures AlignUp(m, a) <= AlignUp(n, a)
  {
    hide AlignUp;
    AlignUpIsLeast(m, a);
    AlignUpIsLeast(n, a);
  }

  lemma SameShape(s: seq<Slot>, t: seq<Slot>)
    requires WellSized(s) && multiset(s) == multiset(t)
    ensures WellSized(t) && Aligns(t)
  {
    forall i | 0 <= i < |t| ensures IsPowerOfTwo(t[i].align) && Divides(t[i].align, t[i].size) {
      assert t[i] in multiset(s);
    }
  }

  // ---------------------------------------------------------------- exactly when there is padding

  lemma {:induction false} Tight(s: seq<Slot>)
    requires Aligns(s) && forall k :: 0 <= k < |s| ==> Divides(s[k].align, Sum(s[..k]))
    ensures Placed(s, 0) == Sum(s)
    decreases |s|
  {
    if s != [] {
      var n := |s| - 1;
      forall k | 0 <= k < n ensures Divides(s[..n][k].align, Sum(s[..n][..k])) {
        assert s[..n][..k] == s[..k];
      }
      Tight(s[..n]);
      AlreadyAligned(Sum(s[..n]), s[n].align);
    }
  }

  /** In any order, there is no padding exactly when every slot's alignment divides the sizes before it. */
  lemma NoPaddingIs(s: seq<Slot>)
    requires Aligns(s)
    ensures NoPadding(s) <==> forall k :: 0 <= k < |s| ==> Divides(s[k].align, Sum(s[..k]))
  {
    hide AlignUp, Sum, Placed, Divides;
    if forall k :: 0 <= k < |s| ==> Divides(s[k].align, Sum(s[..k])) {
      forall k | 0 <= k < |s| ensures OffsetOf(s, k) == Sum(s[..k]) {
        assert forall i :: 0 <= i < k ==> s[..k][..i] == s[..i];
        Tight(s[..k]);
        AlreadyAligned(Sum(s[..k]), s[k].align);
      }
    }
    forall k | 0 <= k < |s| ensures Divides(s[k].align, OffsetOf(s, k)) {
      AlignUpIsLeast(Placed(s[..k], 0), s[k].align);
    }
  }

  /** The bytes of the slots whose size is not a multiple of their alignment. */
  ghost function Uneven(s: seq<Slot>): nat
  {
    if s == [] then 0
    else
      var x := s[|s| - 1];
      Uneven(s[..|s| - 1]) + if Divides(x.align, x.size) then 0 else x.size
  }

  ghost predicate PowerAligned(s: seq<Slot>)
  {
    forall i :: 0 <= i < |s| ==> IsPowerOfTwo(s[i].align)
  }

  lemma DifferenceDivides(a: nat, m: nat, n: nat)
    requires a > 0 && Divides(a, n)
    ensures Divides(a, m + n) <==> Divides(a, m)
  {
    if Divides(a, m) {
      SumDivides(a, m, n);
    }
    if Divides(a, m + n) {
      var j: nat :| Times(j, a) == m + n;
      var k: nat :| Times(k, a) == n;
      if j <= k {
        Scales(j, k, a);
        ZeroDivides(a);
      } else {
        assert Times(j - k, a) == m by { assert (j - k) * a == j * a - k * a; }
      }
    }
  }

  /** To a power of two no greater than their alignments, only the uneven slots matter. */
  lemma {:induction false} OnlyUnevenCount(s: seq<Slot>, a: nat)
    requires PowerAligned(s) && IsPowerOfTwo(a) && a > 0 && forall i :: 0 <= i < |s| ==> s[i].align >= a
    ensures Uneven(s) <= Sum(s) && Divides(a, Sum(s) - Uneven(s))
    decreases |s|
  {
    hide IsPowerOfTwo, Divides;
    ZeroDivides(a);
    if s != [] {
      var x, n := s[|s| - 1], |s| - 1;
      OnlyUnevenCount(s[..n], a);
      if Divides(x.align, x.size) {
        PowersDivide(a, x.align);
        DividesThrough(a, x.align, x.size);
        SumDivides(a, Sum(s[..n]) - Uneven(s[..n]), x.size);
      }
    }
  }

  /** The order chosen has padding exactly when some slot comes after uneven slots whose bytes its alignment does not
    * divide. */
  lemma PaddingExactly(s: seq<Slot>)
    requires PowerAligned(s) && Aligns(s)
    ensures Aligns(Sort(s))
    ensures NoPadding(Sort(s)) <==> forall k :: 0 <= k < |Sort(s)| ==> Divides(Sort(s)[k].align, Uneven(Sort(s)[..k]))
  {
    hide IsPowerOfTwo, Divides, NoPadding, Uneven, Sum, Sort;
    var r := Sort(s);
    forall i | 0 <= i < |r| ensures IsPowerOfTwo(r[i].align) && r[i].align > 0 {
      assert r[i] in multiset(s);
    }
    SortSorts(s);
    NoPaddingIs(r);
    forall k | 0 <= k < |r| ensures Divides(r[k].align, Sum(r[..k])) <==> Divides(r[k].align, Uneven(r[..k])) {
      OnlyUnevenCount(r[..k], r[k].align);
      DifferenceDivides(r[k].align, Uneven(r[..k]), Sum(r[..k]) - Uneven(r[..k]));
    }
  }

  /** An order without padding is one of the smallest. */
  lemma NoPaddingIsLeast(s: seq<Slot>, other: seq<Slot>)
    requires Aligns(s) && NoPadding(s) && multiset(other) == multiset(s)
    ensures Aligns(other) && ExtentOf(s).size <= ExtentOf(other).size
  {
    forall i | 0 <= i < |other| ensures other[i].align > 0 {
      assert other[i] in multiset(s);
    }
    NoPaddingIs(s);
    Tight(s);
    PlacedIsAtLeastSum(other);
    SumIgnoresOrder(s, other);
    MaxAlignIgnoresOrder(s, other);
    MaxAlignIgnoresOrder(other, s);
    if Placed(other, 0) > 0 {
      AlignUpMonotone(Placed(s, 0), Placed(other, 0), MaxAlign(s));
    }
  }

  /** Whether a slot shape never causes padding, in whatever struct it is placed with well-sized slots:
    * exactly when its size is a multiple of its alignment. */
  lemma PaddingFreeShapes(x: Slot)
    requires IsPowerOfTwo(x.align)
    ensures Divides(x.align, x.size) <==>
              forall s: seq<Slot> :: (forall i :: 0 <= i < |s| ==> s[i] == x || WellSized([s[i]])) ==>
                Aligns(Sort(s)) && NoPadding(Sort(s))
  {
    if Divides(x.align, x.size) {
      forall s: seq<Slot> | forall i :: 0 <= i < |s| ==> s[i] == x || WellSized([s[i]])
        ensures Aligns(Sort(s)) && NoPadding(Sort(s))
      {
        assert WellSized(s) by {
          forall i | 0 <= i < |s| ensures IsPowerOfTwo(s[i].align) && Divides(s[i].align, s[i].size) {
            assert s[i] == x || WellSized([s[i]]);
            assert [s[i]][0] == s[i];
          }
        }
        SortIsOptimal(s, s);
      }
    } else {
      TwinsPad(x);
    }
  }

  lemma TwinsPad(x: Slot)
    requires x.align > 0 && !Divides(x.align, x.size)
    ensures Sort([x, x]) == [x, x] && Aligns([x, x]) && !NoPadding([x, x])
  {
    assert [x, x][1..] == [x];
    assert [x][1..] == [];
    assert Sort([x]) == [x];
    var s := [x, x];
    AlignUpIsLeast(x.size, x.align);
    assert s[..1] == [x] && [x][..0] == [];
    assert Sum(s[..1]) == x.size;
    assert Placed([x], 0) == x.size by { ZeroAligned(x.align); }
    assert OffsetOf(s, 1) != Sum(s[..1]);
  }

  /** Three slots listed with the one to be placed first at the end. */
  lemma SortRotates(y: Slot, z: Slot, x: Slot)
    requires Before(y, z) && Before(x, y) && Before(x, z) && !Before(z, x) && !Before(y, x)
    ensures Sort([y, z, x]) == [x, y, z]
  {
    hide Before;
    assert [y, z, x][1..] == [z, x] && [z, x][1..] == [x] && [x][1..] == [];
    assert Sort([x]) == [x];
    assert Insert(z, [x]) == [x, z] by { assert [x][1..] == []; }
    assert Sort([z, x]) == [x, z];
    assert [x, z][1..] == [z];
    assert Insert(y, [z]) == [y, z];
    assert Insert(y, [x, z]) == [x, y, z];
  }

  lemma RoundsTo()
    ensures AlignUp(12, 8) == 16 && AlignUp(24, 1) == 24 && AlignUp(25, 8) == 32
    ensures AlignUp(8, 8) == 8 && AlignUp(20, 1) == 20 && AlignUp(21, 8) == 24
  {
  }

  lemma PlacedThree(x: Slot, y: Slot, z: Slot)
    requires x.align > 0 && y.align > 0 && z.align > 0
    ensures OffsetOf([x, y, z], 1) == AlignUp(x.size, y.align) && Sum([x, y, z][..1]) == x.size
    ensures Placed([x, y, z], 0) == AlignUp(AlignUp(x.size, y.align) + y.size, z.align) + z.size
    ensures x.align >= y.align && x.align >= z.align ==> MaxAlign([x, y, z]) == x.align
  {
    hide AlignUp;
    assert [x, y, z][..2] == [x, y] && [x, y][..1] == [x] && [x][..0] == [] && [x, y, z][..1] == [x];
    assert AlignUp(0, x.align) == 0 by { ZeroAligned(x.align); }
    assert Placed([x], 0) == x.size;
    assert Placed([x, y], 0) == AlignUp(x.size, y.align) + y.size;
    assert MaxAlign([x]) == x.align;
  }

  /** Three slots, the widest alignment first: the extent they take, and where padding lies. */
  lemma ThreeExtent(x: Slot, y: Slot, z: Slot)
    requires x.align >= y.align > 0 && x.align >= z.align > 0 && z.size > 0
    ensures Aligns([x, y, z])
    ensures ExtentOf([x, y, z]).size == AlignUp(AlignUp(AlignUp(x.size, y.align) + y.size, z.align) + z.size, x.align)
    ensures AlignUp(x.size, y.align) != x.size ==> !NoPadding([x, y, z])
  {
    hide AlignUp, Placed, MaxAlign, OffsetOf, Sum;
    PlacedThree(x, y, z);
    assert AlignUp(x.size, y.align) != x.size ==> OffsetOf([x, y, z], 1) != Sum([x, y, z][..1]);
  }

  lemma ZeroAligned(a: nat)
    requires a > 0
    ensures AlignUp(0, a) == 0
  {
    ZeroDivides(a);
    AlreadyAligned(0, a);
  }

  // ---------------------------------------------------------------- the pass itself

  /** Sorts the slots in place, writes each slot's offset to the member it belongs to, and returns the
    * struct's extent. */
  method OrderSlots(slots: array<Slot>, offsets: array<nat>) returns (e: Extent)
    requires Aligns(slots[..])
    requires forall i :: 0 <= i < slots.Length ==> slots[i].out < offsets.Length
    requires forall i, j :: 0 <= i < j < slots.Length ==> slots[i].out != slots[j].out
    modifies slots, offsets
    ensures slots[..] == Sort(old(slots[..])) && Aligns(slots[..])
    ensures e == ExtentOf(slots[..])
    ensures forall k :: 0 <= k < slots.Length ==>
              slots[k].out < offsets.Length && offsets[slots[k].out] == OffsetOf(slots[..], k)
    ensures forall m :: 0 <= m < offsets.Length && (forall k :: 0 <= k < slots.Length ==> slots[k].out != m) ==>
              offsets[m] == old(offsets[m])
  {
    hide AlignUp, Placed, MaxAlign, Sort;
    ghost var was := slots[..];
    var s := Sort(slots[..]);
    SortKeepsOuts(was, offsets.Length);
    assert |s| == slots.Length by { assert |multiset(s)| == |multiset(was)|; }
    forall i | 0 <= i < slots.Length {
      slots[i] := s[i];
    }
    assert slots[..] == s;
    e := Place(s, offsets);
  }

  /** Gives each slot the next offset its alignment allows. */
  method Place(s: seq<Slot>, offsets: array<nat>) returns (e: Extent)
    requires DistinctOuts(s, offsets.Length)
    modifies offsets
    ensures e == ExtentOf(s)
    ensures forall k :: 0 <= k < |s| ==> offsets[s[k].out] == OffsetOf(s, k)
    ensures forall m :: 0 <= m < offsets.Length && (forall k :: 0 <= k < |s| ==> s[k].out != m) ==>
              offsets[m] == old(offsets[m])
  {
    hide AlignUp, Placed, MaxAlign, OffsetOf;
    NothingPlaced();
    var cursor, maxAlign, k := 0, 1, 0;
    assert s[..0] == [];
    while k < |s|
      invariant 0 <= k <= |s|
      invariant cursor == Placed(s[..k], 0) && maxAlign == MaxAlign(s[..k])
      invariant forall i :: 0 <= i < k ==> offsets[s[i].out] == OffsetOf(s, i)
      invariant forall m :: 0 <= m < offsets.Length && (forall i :: 0 <= i < k ==> s[i].out != m) ==>
                  offsets[m] == old(offsets[m])
    {
      PlacedNext(s, k);
      var off := AlignUp(cursor, s[k].align);
      offsets[s[k].out] := off;
      cursor := off + s[k].size;
      maxAlign := if s[k].align > maxAlign then s[k].align else maxAlign;
      k := k + 1;
    }
    assert s[..|s|] == s;
    e := Extent(if cursor == 0 then 1 else AlignUp(cursor, maxAlign), maxAlign);
  }

  lemma NothingPlaced()
    ensures Placed([], 0) == 0 && MaxAlign([]) == 1
  {
  }

  lemma PlacedNext(s: seq<Slot>, k: nat)
    requires Aligns(s) && k < |s|
    ensures OffsetOf(s, k) == AlignUp(Placed(s[..k], 0), s[k].align)
    ensures Placed(s[..k + 1], 0) == OffsetOf(s, k) + s[k].size
    ensures MaxAlign(s[..k + 1]) == if s[k].align > MaxAlign(s[..k]) then s[k].align else MaxAlign(s[..k])
  {
    assert s[..k + 1][..k] == s[..k];
  }

  ghost predicate DistinctOuts(s: seq<Slot>, n: nat)
  {
    (forall i :: 0 <= i < |s| ==> s[i].out < n && s[i].align > 0)
    && forall i, j :: 0 <= i < j < |s| ==> s[i].out != s[j].out
  }

  lemma {:induction false} SortKeepsOuts(s: seq<Slot>, n: nat)
    requires DistinctOuts(s, n)
    ensures DistinctOuts(Sort(s), n)
  {
    if s != [] {
      SortKeepsOuts(s[1..], n);
      var r := Sort(s[1..]);
      forall i | 0 <= i < |r| ensures r[i].out != s[0].out {
        assert r[i] in multiset(r);
        assert r[i] in multiset(s[1..]);
        var j :| 0 <= j < |s[1..]| && s[1..][j] == r[i];
        assert s[j + 1].out != s[0].out;
      }
      InsertKeepsOuts(s[0], r, n);
    }
  }

  lemma {:induction false} InsertKeepsOuts(x: Slot, s: seq<Slot>, n: nat)
    requires DistinctOuts(s, n) && x.out < n && x.align > 0
    requires forall i :: 0 <= i < |s| ==> s[i].out != x.out
    ensures DistinctOuts(Insert(x, s), n)
  {
    if s != [] && !Before(x, s[0]) {
      InsertKeepsOuts(x, s[1..], n);
      InsertApart(x, s);
    }
  }

  lemma InsertApart(x: Slot, s: seq<Slot>)
    requires s != [] && s[0].out != x.out && forall i :: 0 < i < |s| ==> s[i].out != s[0].out
    ensures forall i :: 0 <= i < |Insert(x, s[1..])| ==> Insert(x, s[1..])[i].out != s[0].out
  {
    var r := Insert(x, s[1..]);
    forall i | 0 <= i < |r| ensures r[i].out != s[0].out {
      assert r[i] in multiset(r);
      assert r[i] == x || r[i] in multiset(s[1..]);
    }
  }
}
