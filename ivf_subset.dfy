/**
 * What `copy_subset_to` copies out of each list, stated on values, for its three
 * policies: an id range (type 0), an id remainder (type 1) and a proportional
 * slice over scan order (type 2).
 */
module IvfSubset {
  import opened InvertedLists

  /** C++ `%` on signed integers: the remainder truncates toward zero, so it takes
      the sign of the dividend. */
  function CRem(x: int, m: int): int
    requires m != 0
  {
    var am := if m < 0 then -m else m;
    if x >= 0 then x % am else -((-x) % am)
  }

  /** Whether the id policy `subsetType` (0 or 1) keeps the id. */
  predicate Keep(subsetType: int, a1: int, a2: int, id: int)
    requires subsetType == 1 ==> a1 != 0
  {
    if subsetType == 0 then a1 <= id < a2
    else if subsetType == 1 then CRem(id, a1) == a2
    else false
  }

  /** The entries of `s` an id policy keeps, in their original order. */
  function Select(s: seq<Entry>, subsetType: int, a1: int, a2: int): seq<Entry>
    requires subsetType == 1 ==> a1 != 0
  {
    if s == [] then []
    else
      Select(s[..|s| - 1], subsetType, a1, a2)
      + (if Keep(subsetType, a1, a2, s[|s| - 1].id) then [s[|s| - 1]] else [])
  }

  /** Exactly the entries the policy keeps are copied, in list order. */
  lemma {:induction false} SelectMembers(s: seq<Entry>, subsetType: int, a1: int, a2: int, e: Entry)
    requires subsetType == 1 ==> a1 != 0
    ensures e in Select(s, subsetType, a1, a2) <==> e in s && Keep(subsetType, a1, a2, e.id)
    ensures |Select(s, subsetType, a1, a2)| <= |s|
  {
    if s != [] {
      SelectMembers(s[..|s| - 1], subsetType, a1, a2, e);
      assert s == s[..|s| - 1] + [s[|s| - 1]];
    }
  }

  /** Copying the id range [lo, hi) is the same, as a multiset of entries, as
      copying [lo, mid) and [mid, hi) into two subsets: together they give the
      whole range. */
  lemma {:induction false} SelectRangeSplit(s: seq<Entry>, lo: int, mid: int, hi: int)
    requires lo <= mid <= hi
    ensures multiset(Select(s, 0, lo, mid)) + multiset(Select(s, 0, mid, hi)) == multiset(Select(s, 0, lo, hi))
  {
    if s != [] {
      var init := s[..|s| - 1];
      var e := s[|s| - 1];
      SelectRangeSplit(init, lo, mid, hi);
      var left, right, whole := Select(init, 0, lo, mid), Select(init, 0, mid, hi), Select(init, 0, lo, hi);
      if lo <= e.id < mid {
        assert Select(s, 0, lo, mid) == left + [e];
        assert Select(s, 0, mid, hi) == right + [];
        assert Select(s, 0, lo, hi) == whole + [e];
      } else if mid <= e.id < hi {
        assert Select(s, 0, lo, mid) == left + [];
        assert Select(s, 0, mid, hi) == right + [e];
        assert Select(s, 0, lo, hi) == whole + [e];
      } else {
        assert Select(s, 0, lo, mid) == left + [];
        assert Select(s, 0, mid, hi) == right + [];
        assert Select(s, 0, lo, hi) == whole + [];
      }
    }
  }

  /** The two subsets of adjacent id ranges share no entry. */
  lemma SelectRangeDisjoint(s: seq<Entry>, lo: int, mid: int, hi: int)
    requires lo <= mid <= hi
    ensures forall e :: !(e in Select(s, 0, lo, mid) && e in Select(s, 0, mid, hi))
  {
    forall e | e in Select(s, 0, lo, mid)
      ensures e !in Select(s, 0, mid, hi)
    {
      SelectMembers(s, 0, lo, mid, e);
      SelectMembers(s, 0, mid, hi, e);
    }
  }

  /** When every id lies in [lo, hi), copying that range copies the whole list. */
  lemma {:induction false} SelectRangeAll(s: seq<Entry>, lo: int, hi: int)
    requires forall k :: 0 <= k < |s| ==> lo <= s[k].id < hi
    ensures Select(s, 0, lo, hi) == s
  {
    if s != [] {
      SelectRangeAll(s[..|s| - 1], lo, hi);
    }
  }

  // ---- the proportional split (type 2) ----

  /** `floor(accu * a / ntotal)`: how much of `a` falls in the first `accu` entries. */
  function Share(accu: nat, a: nat, ntotal: nat): nat
    requires ntotal > 0
  {
    accu * a / ntotal
  }

  lemma DivMonotone(x: nat, y: nat, t: nat)
    requires x <= y && t > 0
    ensures x / t <= y / t
  {
    assert x / t * t <= x;
    assert y < (y / t + 1) * t;
  }


  /** The quotient is the one `q` with `q * t <= x < q * t + t`. */
  lemma DivUnique(x: nat, t: nat, q: nat)
    requires t > 0 && q * t <= x < q * t + t
    ensures x / t == q
  {
    var k := x / t;
    assert k * t <= x < k * t + t;
    MulSubRight(k, q, t);
    MulBelowOne(k - q, t);
    MulSubRight(q, k, t);
    MulBelowOne(q - k, t);
  }

  lemma MulSubRight(a: int, b: int, t: int)
    ensures (a - b) * t == a * t - b * t
  {
  }

  lemma MulBelowOne(m: int, t: int)
    requires t > 0 && m * t < t
    ensures m < 1
  {
  }

  lemma DivPlusOne(z: nat, t: nat)
    requires t > 0
    ensures (z + t) / t == z / t + 1
  {
    var q := z / t;
    assert q * t <= z < q * t + t;
    assert (q + 1) * t == q * t + t;
    DivUnique(z + t, t, q + 1);
  }

  lemma {:induction false} DivAddMultiple(x: nat, n: nat, t: nat)
    requires t > 0
    ensures (x + n * t) / t == x / t + n
  {
    if n > 0 {
      DivAddMultiple(x, n - 1, t);
      var m := (n - 1) * t;
      assert n * t == m + t;
      DivPlusOne(x + m, t);
    }
  }

  lemma MulAddRight(x: nat, y: nat, a: nat)
    ensures (x + y) * a == x * a + y * a
  {
  }

  lemma MulLeRight(n: nat, a: nat, b: nat)
    requires a <= b
    ensures n * a <= n * b
  {
  }

  /** Between consecutive accumulated sizes the share grows by at least 0 and at
      most the size of the list in between, when `a <= ntotal`. */
  lemma ShareStep(accu: nat, n: nat, a: nat, ntotal: nat)
    requires ntotal > 0 && a <= ntotal
    ensures Share(accu, a, ntotal) <= Share(accu + n, a, ntotal) <= Share(accu, a, ntotal) + n
  {
    var p, q, m := accu * a, n * a, n * ntotal;
    MulAddRight(accu, n, a);
    MulLeRight(n, a, ntotal);
    assert Share(accu, a, ntotal) == p / ntotal && Share(accu + n, a, ntotal) == (p + q) / ntotal;
    DivMonotone(p, p + q, ntotal);
    DivMonotone(p + q, p + m, ntotal);
    DivAddMultiple(p, n, ntotal);
  }

  /** The offset in list `l` where the share of `a` starts: i1 for a1, i2 for a2. */
  function SliceBound(ls: Lists, l: nat, a: nat, ntotal: nat): (i: nat)
    requires l < |ls| && ntotal > 0 && a <= ntotal
    ensures i <= |ls[l]|
  {
    assert ls[..l + 1][..l] == ls[..l];
    ShareStep(TotalSize(ls[..l]), |ls[l]|, a, ntotal);
    Share(TotalSize(ls[..l + 1]), a, ntotal) - Share(TotalSize(ls[..l]), a, ntotal)
  }

  /** Type 2: the contiguous slice [i1, i2) of list `l`; nothing when i2 <= i1. */
  function ProportionalPart(ls: Lists, l: nat, a1: nat, a2: nat, ntotal: nat): seq<Entry>
    requires l < |ls| && ntotal > 0 && a1 <= ntotal && a2 <= ntotal
  {
    var i1 := SliceBound(ls, l, a1, ntotal);
    var i2 := SliceBound(ls, l, a2, ntotal);
    if i1 < i2 then ls[l][i1..i2] else []
  }

  /** The arguments under which `copy_subset_to` reads only inside its lists. */
  ghost predicate SubsetArgs(subsetType: int, a1: int, a2: int, ntotal: int, nlist: nat)
  {
    && (subsetType == 1 ==> a1 != 0)
    && (subsetType == 2 && nlist > 0 ==> ntotal > 0 && 0 <= a1 <= ntotal && 0 <= a2 <= ntotal)
  }

  /** What list `l` contributes to the subset under policy `subsetType`. */
  function CopiedPart(ls: Lists, l: nat, subsetType: int, a1: int, a2: int, ntotal: int): seq<Entry>
    requires l < |ls| && 0 <= subsetType <= 2 && SubsetArgs(subsetType, a1, a2, ntotal, |ls|)
  {
    if subsetType == 2 then ProportionalPart(ls, l, a1, a2, ntotal)
    else Select(ls[l], subsetType, a1, a2)
  }

  /** The subset, list by list. */
  function Copied(ls: Lists, subsetType: int, a1: int, a2: int, ntotal: int): (r: Lists)
    requires 0 <= subsetType <= 2 && SubsetArgs(subsetType, a1, a2, ntotal, |ls|)
    ensures |r| == |ls|
    ensures forall l :: 0 <= l < |ls| ==> r[l] == CopiedPart(ls, l, subsetType, a1, a2, ntotal)
  {
    seq(|ls|, l requires 0 <= l < |ls| => CopiedPart(ls, l, subsetType, a1, a2, ntotal))
  }

  /** The count `copy_subset_to` adds to `other.ntotal` for type 2 AS WRITTEN:
      `i2 - i1` per list, taken modulo 2^64 and so negative when i2 < i1. */
  function AsWrittenGrowth(ls: Lists, k: nat, a1: nat, a2: nat, ntotal: nat): int
    requires k <= |ls| && ntotal > 0 && a1 <= ntotal && a2 <= ntotal
  {
    if k == 0 then 0
    else AsWrittenGrowth(ls, k - 1, a1, a2, ntotal)
         + (SliceBound(ls, k - 1, a2, ntotal) - SliceBound(ls, k - 1, a1, ntotal))
  }

  /** The as-written counts telescope: over the first `k` lists they add up to the
      difference of the two shares of everything in those lists. */
  lemma {:induction false} AsWrittenGrowthTelescopes(ls: Lists, k: nat, a1: nat, a2: nat, ntotal: nat)
    requires k <= |ls| && ntotal > 0 && a1 <= ntotal && a2 <= ntotal
    ensures AsWrittenGrowth(ls, k, a1, a2, ntotal)
         == Share(TotalSize(ls[..k]), a2, ntotal) - Share(TotalSize(ls[..k]), a1, ntotal)
  {
    if k == 0 {
      assert ls[..0] == [];
    } else {
      AsWrittenGrowthTelescopes(ls, k - 1, a1, a2, ntotal);
      assert ls[..k][..k - 1] == ls[..k - 1];
    }
  }

  /** With `ntotal` equal to the entry count, `other.ntotal` grows by `a2 - a1` in
      total under the as-written type-2 accounting. */
  lemma AsWrittenGrowthTotal(ls: Lists, a1: nat, a2: nat, ntotal: nat)
    requires ntotal > 0 && a1 <= ntotal && a2 <= ntotal && TotalSize(ls) == ntotal
    ensures AsWrittenGrowth(ls, |ls|, a1, a2, ntotal) == a2 - a1
  {
    AsWrittenGrowthTelescopes(ls, |ls|, a1, a2, ntotal);
    assert ls[..|ls|] == ls;
    assert ntotal * a1 / ntotal == a1 by { DivAddMultiple(0, a1, ntotal); }
    assert ntotal * a2 / ntotal == a2 by { DivAddMultiple(0, a2, ntotal); }
  }

  /** The as-written accounting disagrees with what is copied: with list sizes
      2, 1, 2 (ntotal 5), a1 = 2 and a2 = 3, list 1 gets i1 = 1 > i2 = 0, two
      entries are copied, and `other.ntotal` grows by only 1. */
  lemma AsWrittenGrowthMiscounts(e: Entry)
    ensures var ls := [[e, e], [e], [e, e]];
      && TotalSize(ls) == 5
      && SliceBound(ls, 1, 2, 5) == 1 && SliceBound(ls, 1, 3, 5) == 0
      && AsWrittenGrowth(ls, 3, 2, 3, 5) == 1
      && TotalSize(Copied(ls, 2, 2, 3, 5)) == 2
  {
    var ls := [[e, e], [e], [e, e]];
    assert ls[..0] == [] && ls[..1] == [[e, e]] && ls[..2] == [[e, e], [e]] && ls[..3] == ls;
    assert ls[..1][..0] == [] && ls[..2][..1] == ls[..1];
    assert TotalSize(ls[..1]) == 2 && TotalSize(ls[..2]) == 3 && TotalSize(ls) == 5;
    assert SliceBound(ls, 0, 2, 5) == 0 && SliceBound(ls, 0, 3, 5) == 1;
    assert SliceBound(ls, 1, 2, 5) == 1 && SliceBound(ls, 1, 3, 5) == 0;
    assert SliceBound(ls, 2, 2, 5) == 1 && SliceBound(ls, 2, 3, 5) == 2;
    assert AsWrittenGrowth(ls, 1, 2, 3, 5) == 1;
    assert AsWrittenGrowth(ls, 2, 2, 3, 5) == 0;
    assert AsWrittenGrowth(ls, 3, 2, 3, 5) == 1;
    var c := Copied(ls, 2, 2, 3, 5);
    assert c[0] == [e] && c[1] == [] && c[2] == [e];
    assert c == [[e], [], [e]];
    assert c[..0] == [] && c[..1] == [[e]] && c[..2] == [[e], []] && c[..3] == c;
    assert c[..1][..0] == [] && c[..2][..1] == c[..1];
    assert TotalSize(c[..1]) == 1 && TotalSize(c[..2]) == 1 && TotalSize(c) == 2;
  }
}
