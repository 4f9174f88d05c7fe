/**
 * Which stored entries `reconstruct_n` hands to `reconstruct_from_offset`:
 * every (list, offset) whose id lies in [i0, i0 + ni), list by list and in
 * offset order inside a list.
 */
module IvfReconstruct {
  import opened InvertedLists

  /** A stored position: a list number and an offset in that list. */
  datatype Pos = Pos(listNo: nat, offset: nat)

  /** The argument check of reconstruct_n: an empty request, or a range of ids
      inside [0, ntotal). */
  predicate RangeOk(i0: int, ni: int, ntotal: int)
  {
    ni == 0 || (i0 >= 0 && i0 + ni <= ntotal)
  }

  /** Offsets `0..k` of list `l` whose id lies in [lo, hi), in offset order. */
  function ListHits(ls: Lists, l: nat, lo: int, hi: int, k: nat): seq<Pos>
    requires l < |ls| && k <= |ls[l]|
  {
    if k == 0 then []
    else ListHits(ls, l, lo, hi, k - 1) + (if lo <= ls[l][k - 1].id < hi then [Pos(l, k - 1)] else [])
  }

  /** The positions of lists `0..m` whose id lies in [lo, hi), list by list. */
  function Hits(ls: Lists, lo: int, hi: int, m: nat): seq<Pos>
    requires m <= |ls|
  {
    if m == 0 then [] else Hits(ls, lo, hi, m - 1) + ListHits(ls, m - 1, lo, hi, |ls[m - 1]|)
  }

  /** A position is reported for list `l` exactly when its id is in range. */
  lemma {:induction false} ListHitsMembers(ls: Lists, l: nat, lo: int, hi: int, k: nat, p: Pos)
    requires l < |ls| && k <= |ls[l]|
    ensures p in ListHits(ls, l, lo, hi, k) <==>
      p.listNo == l && p.offset < k && lo <= ls[l][p.offset].id < hi
  {
    if k > 0 {
      ListHitsMembers(ls, l, lo, hi, k - 1, p);
    }
  }

  /** The positions reported are exactly the stored entries whose id is in range. */
  lemma {:induction false} HitsMembers(ls: Lists, lo: int, hi: int, m: nat, p: Pos)
    requires m <= |ls|
    ensures p in Hits(ls, lo, hi, m) <==>
      p.listNo < m && p.offset < |ls[p.listNo]| && lo <= ls[p.listNo][p.offset].id < hi
  {
    if m > 0 {
      HitsMembers(ls, lo, hi, m - 1, p);
      ListHitsMembers(ls, m - 1, lo, hi, |ls[m - 1]|, p);
    }
  }

  /** Each position is reported once: positions come in strictly increasing
      (list, offset) order. */
  predicate Before(p: Pos, q: Pos)
  {
    p.listNo < q.listNo || (p.listNo == q.listNo && p.offset < q.offset)
  }

  lemma {:induction false} ListHitsOrdered(ls: Lists, l: nat, lo: int, hi: int, k: nat)
    requires l < |ls| && k <= |ls[l]|
    ensures forall i :: 0 <= i < |ListHits(ls, l, lo, hi, k)| ==>
      ListHits(ls, l, lo, hi, k)[i].listNo == l && ListHits(ls, l, lo, hi, k)[i].offset < k
    ensures forall i, j :: 0 <= i < j < |ListHits(ls, l, lo, hi, k)| ==>
      Before(ListHits(ls, l, lo, hi, k)[i], ListHits(ls, l, lo, hi, k)[j])
  {
    if k > 0 {
      ListHitsOrdered(ls, l, lo, hi, k - 1);
      var prev := ListHits(ls, l, lo, hi, k - 1);
      var h := ListHits(ls, l, lo, hi, k);
      forall i | 0 <= i < |h| ensures h[i].listNo == l && h[i].offset < k {
        if i < |prev| {
          assert h[i] == prev[i];
        } else {
          assert h[i] == Pos(l, k - 1);
        }
      }
      forall i, j | 0 <= i < j < |h| ensures Before(h[i], h[j]) {
        assert h[i] == prev[i];
        if j < |prev| { assert h[j] == prev[j]; }
      }
    }
  }

  lemma {:induction false} HitsOrdered(ls: Lists, lo: int, hi: int, m: nat)
    requires m <= |ls|
    ensures forall i :: 0 <= i < |Hits(ls, lo, hi, m)| ==> Hits(ls, lo, hi, m)[i].listNo < m
    ensures forall i, j :: 0 <= i < j < |Hits(ls, lo, hi, m)| ==>
      Before(Hits(ls, lo, hi, m)[i], Hits(ls, lo, hi, m)[j])
  {
    if m > 0 {
      HitsOrdered(ls, lo, hi, m - 1);
      ListHitsOrdered(ls, m - 1, lo, hi, |ls[m - 1]|);
      var prev := Hits(ls, lo, hi, m - 1);
      var last := ListHits(ls, m - 1, lo, hi, |ls[m - 1]|);
      var h := Hits(ls, lo, hi, m);
      forall i | 0 <= i < |h| ensures h[i].listNo < m {
        if i < |prev| { assert h[i] == prev[i]; } else { assert h[i] == last[i - |prev|]; }
      }
      forall i, j | 0 <= i < j < |h| ensures Before(h[i], h[j]) {
        if j < |prev| {
          assert h[i] == prev[i] && h[j] == prev[j];
        } else if i < |prev| {
          assert h[i] == prev[i] && h[j] == last[j - |prev|];
        } else {
          assert h[i] == last[i - |prev|] && h[j] == last[j - |prev|];
        }
      }
    }
  }

  /** Every reported id has its output slot `id - i0` inside the `ni` requested. */
  lemma HitSlotsInRange(ls: Lists, i0: int, ni: int, p: Pos)
    requires p in Hits(ls, i0, i0 + ni, |ls|)
    ensures p.listNo < |ls| && p.offset < |ls[p.listNo]|
    ensures 0 <= ls[p.listNo][p.offset].id - i0 < ni
  {
    HitsMembers(ls, i0, i0 + ni, |ls|, p);
  }
}
