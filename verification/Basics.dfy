/** What several modules share: an optional value, the host's size limit, rounding up, and two counting facts. */
module Basics {

  datatype Option<T> = None | Some(value: T)

  const SIZE_MAX: nat := 0xFFFF_FFFF_FFFF_FFFF

  /** The least multiple of `align` that is not below n; for a power of two, what adding and masking gives. */
  function AlignUp(n: nat, align: nat): (r: nat)
    requires align >= 1
    ensures n <= r < n + align && r % align == 0
  {
    RoundedUp(n, align);
    if n % align == 0 then n else n + (align - n % align)
  }

  lemma AlignUpLeast(n: nat, align: nat)
    requires align >= 1
    ensures forall m :: m >= n && m % align == 0 ==> AlignUp(n, align) <= m
  {
    var up := AlignUp(n, align);
    forall m | m >= n && m % align == 0 ensures up <= m {
      if m < up {
        NextMultiple(m, up, align);
      }
    }
  }

  /** Multiples are at least their divisor apart. */
  lemma NextMultiple(m: nat, n: nat, align: nat)
    requires align >= 1 && m < n && m % align == 0 && n % align == 0
    ensures m + align <= n
  {
    var j, k := m / align, n / align;
    assert m == j * align && n == k * align;
    if k <= j {
      Scales(k, j, align);
    } else {
      Scales(j + 1, k, align);
      Scales(j, j, align);
    }
  }

  lemma RoundedUp(n: nat, align: nat)
    requires align >= 1
    ensures n % align != 0 ==> (n + (align - n % align)) % align == 0
  {
    var q, r := n / align, n % align;
    assert n == q * align + r;
    Scales(q, q + 1, align);
    Remainder(n + (align - r), q + 1, 0, align);
  }

  lemma Scales(a: nat, b: nat, d: nat)
    requires a <= b
    ensures a * d <= b * d && (a + 1) * d == a * d + d
  {
    assert b * d == a * d + (b - a) * d;
  }

  /** Quotient and remainder are the only ones. */
  lemma Remainder(x: nat, q: nat, r: nat, d: nat)
    requires d >= 1 && x == q * d + r && r < d
    ensures x % d == r && x / d == q
  {
    var q', r' := x / d, x % d;
    assert x == q' * d + r';
    if q < q' {
      Scales(q + 1, q', d);
      Scales(q, q, d);
    } else if q' < q {
      Scales(q' + 1, q, d);
      Scales(q', q', d);
    }
  }

  lemma SubsetIsSmaller<T>(s: set<T>, t: set<T>)
    requires s <= t
    ensures |s| <= |t| && (s != t ==> |s| < |t|)
  {
    assert t == s + (t - s);
    assert |t| == |s| + |t - s|;
  }

  lemma OccursOnce<T>(s: seq<T>, k: nat)
    requires k < |s| && forall i, j :: 0 <= i < j < |s| ==> s[i] != s[j]
    ensures multiset(s)[s[k]] == 1
  {
    assert s == s[..k] + [s[k]] + s[k + 1..];
    assert s[k] !in s[..k] && s[k] !in s[k + 1..];
  }
}
