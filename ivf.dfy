/**
 * The IVF index: a coarse quantizer's `nlist` lists held in an inverted-lists
 * store, the entry count `ntotal`, and the bookkeeping operations that add to,
 * probe, merge, copy, reset, prune and replace that store.
 */
module Ivf {
  import opened Status
  import opened Level1Quantizer
  import opened InvertedLists
  import opened IvfAdd
  import opened IvfProbe
  import opened IvfSubset
  import opened IvfReconstruct

  /** The kind of id-to-position map the index keeps; only whether there is one matters here. */
  datatype DirectMapType = NoMap | ArrayMap | Hashtable

  /** Per-call overrides of the search settings. */
  datatype SearchParams = SearchParams(nprobe: nat, maxCodes: int)

  /** add_with_ids splits larger adds into batches of this many vectors. */
  const ADD_BATCH: nat := 65536

  /** The size of every list of a store. */
  function SizesOf(ls: Lists): (s: seq<nat>)
    ensures |s| == |ls| && forall l :: 0 <= l < |ls| ==> s[l] == |ls[l]|
  {
    seq(|ls|, l requires 0 <= l < |ls| => |ls[l]|)
  }

  /** `dst` with the copies of its first `k` lists appended. */
  function CopyPrefix(dst: Lists, cp: Lists, k: nat): (r: Lists)
    requires |dst| == |cp| && k <= |cp|
    ensures |r| == |dst|
  {
    if k == 0 then dst
    else
      var prev := CopyPrefix(dst, cp, k - 1);
      prev[k - 1 := prev[k - 1] + cp[k - 1]]
  }

  /** List `l` has received its copied entries exactly when it is below `k`. */
  lemma {:induction false} CopyPrefixAt(dst: Lists, cp: Lists, k: nat, l: nat)
    requires |dst| == |cp| && k <= |cp| && l < |dst|
    ensures CopyPrefix(dst, cp, k)[l] == dst[l] + (if l < k then cp[l] else [])
  {
    if k == 0 {
      assert dst[l] + [] == dst[l];
    } else {
      CopyPrefixAt(dst, cp, k - 1, l);
      if l == k - 1 {
        assert dst[l] + [] == dst[l];
      }
    }
  }

  /** Everything copied: each list is followed by its copied entries. */
  lemma CopyPrefixAll(dst: Lists, cp: Lists)
    requires |dst| == |cp|
    ensures CopyPrefix(dst, cp, |cp|) == Concat(dst, cp)
  {
    forall l | 0 <= l < |dst| ensures CopyPrefix(dst, cp, |cp|)[l] == Concat(dst, cp)[l] {
      CopyPrefixAt(dst, cp, |cp|, l);
    }
  }

  lemma TotalSizePrefixStep(ls: Lists, k: nat)
    requires k < |ls|
    ensures TotalSize(ls[..k + 1]) == TotalSize(ls[..k]) + |ls[k]|
  {
    assert ls[..k + 1][..k] == ls[..k];
  }

  class IndexIVF {
    const d: nat
    const nlist: SizeT
    const codeSize: nat
    /** The concrete index type: only indexes of the same kind can be merged. */
    const kind: nat
    var isTrained: bool
    var ntotal: int
    var directMap: DirectMapType
    var invlists: ArrayInvertedLists?
    var ownInvlists: bool
    /** Set while `invlists` points at a store that has been deleted. */
    var storeFreed: bool
    var nprobe: nat
    var maxCodes: int

    /** The store, when there is one, is live and has the index's geometry. */
    ghost predicate Valid()
      reads this, invlists
    {
      && !storeFreed
      && (invlists != null ==>
            invlists.Valid() && invlists.nlist == nlist && invlists.codeSize == codeSize)
    }

    /** The fields the data operations leave alone. */
    function Settings(): (bool, DirectMapType, ArrayInvertedLists?, bool, bool, nat, int)
      reads this
    {
      (isTrained, directMap, invlists, ownInvlists, storeFreed, nprobe, maxCodes)
    }

    /** The index over a quantizer of dimension `d`: an owned empty store of
        `nlist` lists, trained when the quantizer is trained and holds exactly
        `nlist` centroids. */
    constructor (d: nat, nlist: SizeT, codeSize: nat, kind: nat,
                 quantizerTrained: bool, quantizerNtotal: int)
      ensures Valid() && fresh(invlists) && invlists.lists == EmptyLists(nlist)
      ensures this.d == d && this.nlist == nlist && this.codeSize == codeSize && this.kind == kind
      ensures isTrained == (quantizerTrained && quantizerNtotal == nlist)
      ensures ntotal == 0 && directMap == NoMap && ownInvlists
      ensures nprobe == 1 && maxCodes == 0
    {
      this.d := d;
      this.nlist := nlist;
      this.codeSize := codeSize;
      this.kind := kind;
      invlists := new ArrayInvertedLists(nlist, codeSize);
      ownInvlists := true;
      storeFreed := false;
      nprobe := 1;
      maxCodes := 0;
      directMap := NoMap;
      ntotal := 0;
      isTrained := quantizerTrained && quantizerNtotal == nlist;
    }

    /** Construction fails when the quantizer's dimension is not `d`. */
    static method Create(quantizerD: nat, d: nat, nlist: SizeT, codeSize: nat, kind: nat,
                         quantizerTrained: bool, quantizerNtotal: int) returns (r: Result<IndexIVF>)
      ensures r.Err? <==> d != quantizerD
      ensures r.Err? ==> r.error == ConfigurationMismatch
      ensures r.Ok? ==>
        && fresh(r.value) && r.value.Valid() && r.value.invlists != null
        && r.value.d == d && r.value.nlist == nlist && r.value.codeSize == codeSize
        && r.value.ntotal == 0 && r.value.invlists.lists == EmptyLists(nlist)
        && r.value.isTrained == (quantizerTrained && quantizerNtotal == nlist)
        && r.value.kind == kind && r.value.directMap == NoMap && r.value.ownInvlists
        && r.value.nprobe == 1 && r.value.maxCodes == 0 && fresh(r.value.invlists)
    {
      if d != quantizerD {
        return Err(ConfigurationMismatch);
      }
      var index := new IndexIVF(d, nlist, codeSize, kind, quantizerTrained, quantizerNtotal);
      r := Ok(index);
    }

    /** The pass of worker `rank` of `nt` over inputs i0..i1: it appends the
        inputs whose list it owns (list number congruent to `rank` modulo `nt`),
        with id `xids[i]`, or ntotal plus the input's place in the batch. */
    method WorkerPass(assign: seq<int>, codes: seq<seq<byte>>, xids: Option<seq<int>>,
                      i0: nat, i1: nat, nt: nat, rank: nat, ghost ls0: Lists)
      requires Valid() && invlists != null
      requires BatchShape(assign, xids, codes) && i0 <= i1 <= |assign|
      requires forall i :: i0 <= i < i1 ==> assign[i] < nlist
      requires nt >= 1 && |ls0| == nlist
      requires invlists.lists == RankProgress(ls0, assign, xids, ntotal - i0, codes, i0, i1, nt, rank, i0)
      requires forall i :: 0 <= i < |codes| ==> |codes[i]| == codeSize
      modifies invlists
      ensures Valid()
      ensures invlists.lists == RankProgress(ls0, assign, xids, ntotal - i0, codes, i0, i1, nt, rank, i1)
    {
      var i := i0;
      while i < i1
        invariant i0 <= i <= i1 && Valid()
        invariant invlists.lists == RankProgress(ls0, assign, xids, ntotal - i0, codes, i0, i1, nt, rank, i)
      {
        var listNo := assign[i];
        if listNo >= 0 && listNo % nt == rank {
          var id := if xids.Some? then xids.value[i] else ntotal + (i - i0);
          assert id == IdOf(xids, ntotal - i0, i);
          var ofs := invlists.AddEntry(listNo, id, codes[i]);
        }
        i := i + 1;
      }
    }

    /** One call of add_with_ids on inputs i0..i1 (at most one batch): fails when
        untrained; otherwise the `nt` workers each add the inputs of their own
        lists, and ntotal counts the whole batch. The result does not depend
        on `nt`. */
    method AddBatch(assign: seq<int>, codes: seq<seq<byte>>, xids: Option<seq<int>>,
                    i0: nat, i1: nat, nt: nat) returns (o: Outcome)
      requires Valid() && invlists != null
      requires BatchShape(assign, xids, codes) && i0 <= i1 <= |assign|
      requires forall i :: i0 <= i < i1 ==> assign[i] < nlist
      requires nt >= 1
      requires forall i :: 0 <= i < |codes| ==> |codes[i]| == codeSize
      modifies this, invlists
      ensures Valid() && Settings() == old(Settings())
      ensures o == (if isTrained then Pass else Fail(NotTrained))
      ensures o.Fail? ==> invlists.lists == old(invlists.lists) && ntotal == old(ntotal)
      ensures o.Pass? ==>
        && invlists.lists == AddedLists(old(invlists.lists), assign, xids, old(ntotal) - i0, codes, i0, i1)
        && ntotal == old(ntotal) + (i1 - i0)
    {
      if !isTrained {
        return Fail(NotTrained);
      }
      ghost var ls0 := invlists.lists;
      var rank := 0;
      while rank < nt
        invariant 0 <= rank <= nt
        invariant Valid() && Settings() == old(Settings()) && ntotal == old(ntotal)
        invariant invlists.lists == RankProgress(ls0, assign, xids, ntotal - i0, codes, i0, i1, nt, rank, i0)
      {
        WorkerPass(assign, codes, xids, i0, i1, nt, rank, ls0);
        rank := rank + 1;
      }
      RankProgressDone(ls0, assign, xids, ntotal - i0, codes, i0, i1, nt);
      ntotal := ntotal + (i1 - i0);
      o := Pass;
    }

    /** add_with_ids, the list of each input given as `assign` (negative: no list):
        more than ADD_BATCH inputs are added batch by batch. */
    method AddWithIds(assign: seq<int>, codes: seq<seq<byte>>, xids: Option<seq<int>>, nt: nat)
      returns (o: Outcome)
      requires Valid() && invlists != null && BatchShape(assign, xids, codes)
      requires forall i :: 0 <= i < |assign| ==> assign[i] < nlist
      requires nt >= 1
      requires forall i :: 0 <= i < |codes| ==> |codes[i]| == codeSize
      modifies this, invlists
      ensures Valid() && Settings() == old(Settings())
      ensures o == (if isTrained then Pass else Fail(NotTrained))
      ensures o.Fail? ==> invlists.lists == old(invlists.lists) && ntotal == old(ntotal)
      ensures o.Pass? ==>
        && invlists.lists == AddedLists(old(invlists.lists), assign, xids, old(ntotal), codes, 0, |assign|)
        && ntotal == old(ntotal) + |assign|
    {
      var n := |assign|;
      if n > ADD_BATCH {
        ghost var ls0 := invlists.lists;
        ghost var base := ntotal;
        var i0 := 0;
        while i0 < n
          invariant 0 <= i0 <= n
          invariant Valid() && Settings() == old(Settings())
          invariant i0 > 0 ==> isTrained
          invariant i0 == 0 ==> invlists.lists == ls0 && ntotal == base
          invariant i0 > 0 ==> invlists.lists == AddedLists(ls0, assign, xids, base, codes, 0, i0)
          invariant ntotal == base + i0
        {
          var i1 := if n < i0 + ADD_BATCH then n else i0 + ADD_BATCH;
          o := AddBatch(assign, codes, xids, i0, i1, nt);
          if o.Fail? {
            return;
          }
          if i0 > 0 {
            AddedListsSplit(ls0, assign, xids, base, codes, 0, i0, i1);
          }
          i0 := i1;
        }
        o := Pass;
      } else {
        o := AddBatch(assign, codes, xids, 0, n, nt);
      }
    }

    /** The probe loop of one query (parallel mode 0): the lists of `row` are
        scanned in order until the cumulative count reaches a non-zero budget. */
    method ProbeOneQuery(row: seq<int>, budget: int) returns (r: Result<Probe>)
      requires Valid() && invlists != null
      ensures r == ProbeQuery(SizesOf(invlists.lists), row, budget)
    {
      ghost var sizes := SizesOf(invlists.lists);
      ghost var v := Visited(sizes, row, budget);
      var nscan: nat := 0;
      var scanned: seq<nat> := [];
      var ik := 0;
      while ik < |row|
        invariant 0 <= ik <= |row|
        invariant VisitedFrom(sizes, row, budget, ik) == v
        invariant forall i :: 0 <= i < ik ==> row[i] < |sizes|
        invariant nscan == ScanCount(sizes, row[..ik]) && scanned == ScannedLists(sizes, row[..ik])
      {
        var key := row[ik];
        if key >= 0 {
          if key >= nlist {
            assert 0 <= ik < v && row[ik] >= |sizes|;
            return Err(InvalidKey);
          }
          var size := invlists.ListSize(key);
          if size > 0 {
            scanned := scanned + [key];
          }
          nscan := nscan + size;
        }
        assert row[..ik + 1][..ik] == row[..ik];
        assert nscan == ScanCount(sizes, row[..ik + 1]);
        ik := ik + 1;
        if budget != 0 && nscan >= budget {
          assert BudgetHit(sizes, row, budget, ik);
          assert VisitedFrom(sizes, row, budget, ik - 1) == ik;
          assert forall i :: 0 <= i < ik ==> row[i] < |sizes|;
          assert scanned == ScannedLists(sizes, row[..ik]);
          assert nscan == ScanCount(sizes, row[..ik]);
          return Ok(Probe(scanned, nscan));
        }
      }
      r := Ok(Probe(scanned, nscan));
    }

    /** The query loop of search_preassigned in parallel mode 0: query `q` probes
        `keys[q * np..(q + 1) * np]`; an invalid key aborts the call. */
    method SearchQueries(n: nat, keys: seq<int>, np: nat, budget: int) returns (r: Result<seq<Probe>>)
      requires Valid() && invlists != null
      requires |keys| == n * np
      ensures r == SearchUpTo(SizesOf(invlists.lists), keys, np, budget, n)
    {
      ghost var sizes := SizesOf(invlists.lists);
      var probes: seq<Probe> := [];
      var q, start := 0, 0;
      while q < n
        invariant q <= n && start == q * np && start <= |keys|
        invariant SearchUpTo(sizes, keys, np, budget, q) == Ok(probes)
      {
        RowBound(q, n, np);
        var p := ProbeOneQuery(keys[start..start + np], budget);
        assert keys[start..start + np] == Row(keys, np, q);
        if p.Err? {
          SearchUpToAborted(sizes, keys, np, budget, q + 1, n);
          return Err(p.error);
        }
        probes := probes + [p.value];
        q, start := q + 1, start + np;
      }
      r := Ok(probes);
    }

    /** search_preassigned: the call's parameters, when given, override the
        index's nprobe and max_codes. */
    method SearchPreassigned(n: nat, keys: seq<int>, params: Option<SearchParams>)
      returns (r: Result<seq<Probe>>)
      requires Valid() && invlists != null
      requires |keys| == n * (if params.Some? then params.value.nprobe else nprobe)
      ensures r == SearchUpTo(SizesOf(invlists.lists), keys,
                              if params.Some? then params.value.nprobe else nprobe,
                              if params.Some? then params.value.maxCodes else maxCodes, n)
    {
      var np := if params.Some? then params.value.nprobe else nprobe;
      var budget := if params.Some? then params.value.maxCodes else maxCodes;
      r := SearchQueries(n, keys, np, budget);
    }

    /** The conditions under which two indexes can be merged. */
    predicate CompatibleForMerge(other: IndexIVF)
      reads this, other
    {
      && other.d == d && other.nlist == nlist && other.codeSize == codeSize && other.kind == kind
      && directMap == NoMap && other.directMap == NoMap
    }

    /** check_compatible_for_merge: same geometry and kind, and no direct map on either side. */
    method CheckCompatibleForMerge(other: IndexIVF) returns (o: Outcome)
      ensures o.Pass? <==> CompatibleForMerge(other)
      ensures o.Fail? && (other.d != d || other.nlist != nlist || other.codeSize != codeSize || other.kind != kind)
        ==> o.error == ConfigurationMismatch
      ensures o.Fail? && other.d == d && other.nlist == nlist && other.codeSize == codeSize && other.kind == kind
        ==> o.error == UnsupportedOperation
    {
      if other.d != d || other.nlist != nlist || other.codeSize != codeSize || other.kind != kind {
        return Fail(ConfigurationMismatch);
      }
      if !(directMap == NoMap && other.directMap == NoMap) {
        return Fail(UnsupportedOperation);
      }
      o := Pass;
    }

    /** merge_from: moves every entry of `other` into this index, ids shifted by
        `addId`, and moves its count along with them. */
    method MergeFrom(other: IndexIVF, addId: int) returns (o: Outcome)
      requires Valid() && other.Valid() && invlists != null && other.invlists != null
      requires other.invlists != invlists
      modifies this, other, invlists, other.invlists
      ensures Valid() && other.Valid()
      ensures Settings() == old(Settings()) && other.Settings() == old(other.Settings())
      ensures o.Pass? <==> old(CompatibleForMerge(other))
      ensures o.Fail? ==>
        && invlists.lists == old(invlists.lists) && other.invlists.lists == old(other.invlists.lists)
        && ntotal == old(ntotal) && other.ntotal == old(other.ntotal)
      ensures o.Pass? ==>
        && invlists.lists == Concat(old(invlists.lists), ShiftAll(old(other.invlists.lists), addId))
        && other.invlists.lists == EmptyLists(nlist)
        && ntotal == old(ntotal) + old(other.ntotal) && other.ntotal == 0
        && TotalSize(invlists.lists) == old(TotalSize(invlists.lists) + TotalSize(other.invlists.lists))
    {
      o := CheckCompatibleForMerge(other);
      if o.Fail? {
        return;
      }
      ghost var a := invlists.lists;
      ghost var b := other.invlists.lists;
      invlists.MergeFrom(other.invlists, addId);
      ntotal := ntotal + other.ntotal;
      other.ntotal := 0;
      TotalSizeConcat(a, ShiftAll(b, addId));
      TotalSizeShift(b, addId);
    }

    /** The conditions copy_subset_to checks before copying. */
    predicate CompatibleForCopy(other: IndexIVF, subsetType: int)
      reads this, other
    {
      other.nlist == nlist && other.codeSize == codeSize && other.directMap == NoMap
      && 0 <= subsetType <= 2
    }

    /** Type 0 or 1 on list `l`: appends the entries the id policy keeps to the
        same list of `other`, counting each into other.ntotal. */
    method CopyListByPolicy(other: IndexIVF, l: nat, subsetType: int, a1: int, a2: int)
      requires Valid() && other.Valid() && invlists != null && other.invlists != null
      requires other != this && other.invlists != invlists
      requires l < nlist && l < other.nlist
      requires (subsetType == 0 || subsetType == 1) && (subsetType == 1 ==> a1 != 0)
      requires other.codeSize == codeSize
      modifies other, other.invlists
      ensures other.Valid() && other.Settings() == old(other.Settings())
      ensures other.invlists.lists == old(other.invlists.lists)[l :=
        old(other.invlists.lists[l]) + Select(invlists.lists[l], subsetType, a1, a2)]
      ensures other.ntotal == old(other.ntotal) + |Select(invlists.lists[l], subsetType, a1, a2)|
    {
      ghost var src := invlists.lists[l];
      ghost var dst := other.invlists.lists;
      var n := invlists.ListSize(l);
      var i := 0;
      assert src[..0] == [] && dst[l] + [] == dst[l];
      assert dst[l := dst[l]] == dst;
      while i < n
        invariant 0 <= i <= n
        invariant other.Valid() && other.Settings() == old(other.Settings())
        invariant other.invlists.lists == dst[l := dst[l] + Select(src[..i], subsetType, a1, a2)]
        invariant other.ntotal == old(other.ntotal) + |Select(src[..i], subsetType, a1, a2)|
      {
        var e := invlists.lists[l][i];
        assert src[..i + 1][..i] == src[..i];
        ghost var done := dst[l] + Select(src[..i], subsetType, a1, a2);
        if Keep(subsetType, a1, a2, e.id) {
          var ofs := other.invlists.AddEntry(l, e.id, e.code);
          other.ntotal := other.ntotal + 1;
          assert done + [e] == dst[l] + Select(src[..i + 1], subsetType, a1, a2);
        } else {
          assert done == dst[l] + Select(src[..i + 1], subsetType, a1, a2);
        }
        i := i + 1;
      }
      assert src[..n] == src;
    }

    /** Type 2 on list `l`: appends entries i1..i2 (none when i2 <= i1) to the same
        list of `other`, and counts the entries appended into other.ntotal. */
    method CopyListSlice(other: IndexIVF, l: nat, i1: int, i2: int)
      requires Valid() && other.Valid() && invlists != null && other.invlists != null
      requires other != this && other.invlists != invlists
      requires l < nlist && l < other.nlist
      requires i1 < i2 ==> 0 <= i1 && i2 <= |invlists.lists[l]|
      requires other.codeSize == codeSize
      modifies other, other.invlists
      ensures other.Valid() && other.Settings() == old(other.Settings())
      ensures other.invlists.lists == old(other.invlists.lists)[l :=
        old(other.invlists.lists[l]) + (if i1 < i2 then invlists.lists[l][i1..i2] else [])]
      ensures other.ntotal == old(other.ntotal) + (if i1 < i2 then i2 - i1 else 0)
    {
      ghost var src := invlists.lists[l];
      ghost var dst := other.invlists.lists;
      if i1 < i2 {
        var i := i1;
        assert dst[l] + src[i1..i1] == dst[l];
        assert dst[l := dst[l]] == dst;
        while i < i2
          invariant i1 <= i <= i2
          invariant other.Valid() && other.Settings() == old(other.Settings())
          invariant other.invlists.lists == dst[l := dst[l] + src[i1..i]]
          invariant other.ntotal == old(other.ntotal)
        {
          var e := invlists.lists[l][i];
          var ofs := other.invlists.AddEntry(l, e.id, e.code);
          assert src[i1..i + 1] == src[i1..i] + [e];
          assert (dst[l] + src[i1..i]) + [e] == dst[l] + src[i1..i + 1];
          i := i + 1;
        }
        other.ntotal := other.ntotal + (i2 - i1);
      } else {
        assert dst[l] + [] == dst[l];
        assert dst[l := dst[l]] == dst;
      }
    }

    /** The body of copy_subset_to's loop for list `listNo`: copies that list's
        part of the subset (`cp[listNo]`, the subset being `cp`) and returns the
        accumulated entry count and, for type 2, the accumulated shares of a1
        and a2 after this list. */
    method CopyOneList(other: IndexIVF, listNo: nat, subsetType: int, a1: int, a2: int,
                       accuN: nat, accuA1: int, accuA2: int,
                       ghost ls: Lists, ghost dst0: Lists, ghost cp: Lists, ghost base: int)
      returns (nextAccuN: nat, nextAccuA1: int, nextAccuA2: int)
      requires Valid() && other.Valid() && invlists != null && other.invlists != null
      requires other != this && other.invlists != invlists
      requires listNo < nlist && other.nlist == nlist
      requires 0 <= subsetType <= 2 && SubsetArgs(subsetType, a1, a2, ntotal, nlist)
      requires invlists.lists == ls && |dst0| == |cp| == nlist
      requires forall l {:trigger CopiedPart(ls, l, subsetType, a1, a2, ntotal)} :: 0 <= l < nlist ==>
        cp[l] == CopiedPart(ls, l, subsetType, a1, a2, ntotal)
      requires accuN == TotalSize(ls[..listNo])
      requires subsetType == 2 ==> accuA1 == Share(accuN, a1, ntotal) && accuA2 == Share(accuN, a2, ntotal)
      requires other.invlists.lists == CopyPrefix(dst0, cp, listNo)
      requires other.ntotal == base + TotalSize(cp[..listNo])
      requires other.codeSize == codeSize
      modifies other, other.invlists
      ensures other.Valid() && other.Settings() == old(other.Settings())
      ensures other.invlists.lists == CopyPrefix(dst0, cp, listNo + 1)
      ensures other.ntotal == base + TotalSize(cp[..listNo + 1])
      ensures nextAccuN == TotalSize(ls[..listNo + 1])
      ensures subsetType == 2 ==>
        && nextAccuA1 == Share(nextAccuN, a1, ntotal)
        && nextAccuA2 == Share(nextAccuN, a2, ntotal)
    {
      assert cp[listNo] == CopiedPart(ls, listNo, subsetType, a1, a2, ntotal);
      TotalSizePrefixStep(cp, listNo);
      TotalSizePrefixStep(ls, listNo);
      var n := invlists.ListSize(listNo);
      nextAccuN := accuN + n;
      if subsetType == 0 || subsetType == 1 {
        CopyListByPolicy(other, listNo, subsetType, a1, a2);
        nextAccuA1, nextAccuA2 := accuA1, accuA2;
      } else {
        nextAccuA1 := nextAccuN * a1 / ntotal;
        var i1 := nextAccuA1 - accuA1;
        nextAccuA2 := nextAccuN * a2 / ntotal;
        var i2 := nextAccuA2 - accuA2;
        assert i1 == SliceBound(ls, listNo, a1, ntotal) && i2 == SliceBound(ls, listNo, a2, ntotal);
        CopyListSlice(other, listNo, i1, i2);
      }
    }

    /** The loop of copy_subset_to over all lists, with the accumulated entry
        count it ends with. */
    method CopyAllLists(other: IndexIVF, subsetType: int, a1: int, a2: int, ghost ls: Lists, ghost cp: Lists)
      returns (accuN: nat)
      requires Valid() && other.Valid() && invlists != null && other.invlists != null
      requires other != this && other.invlists != invlists && other.nlist == nlist
      requires 0 <= subsetType <= 2 && SubsetArgs(subsetType, a1, a2, ntotal, nlist)
      requires invlists.lists == ls && |cp| == nlist
      requires forall l {:trigger CopiedPart(ls, l, subsetType, a1, a2, ntotal)} :: 0 <= l < nlist ==>
        cp[l] == CopiedPart(ls, l, subsetType, a1, a2, ntotal)
      requires other.codeSize == codeSize
      modifies other, other.invlists
      ensures other.Valid() && other.Settings() == old(other.Settings())
      ensures other.invlists.lists == Concat(old(other.invlists.lists), cp)
      ensures other.ntotal == old(other.ntotal) + TotalSize(cp)
      ensures accuN == TotalSize(ls)
    {
      ghost var dst0 := other.invlists.lists;
      ghost var base := other.ntotal;
      accuN := 0;
      var accuA1: int := 0;
      var accuA2: int := 0;
      var listNo: nat := 0;
      assert ls[..0] == [] && cp[..0] == [];
      if subsetType == 2 && nlist > 0 {
        assert 0 * a1 == 0 && 0 * a2 == 0;
      }
      while listNo < nlist
        invariant listNo <= nlist
        invariant other.Valid() && other.Settings() == old(other.Settings())
        invariant other.invlists.lists == CopyPrefix(dst0, cp, listNo)
        invariant other.ntotal == base + TotalSize(cp[..listNo])
        invariant accuN == TotalSize(ls[..listNo])
        invariant subsetType == 2 && nlist > 0 ==>
          accuA1 == Share(accuN, a1, ntotal) && accuA2 == Share(accuN, a2, ntotal)
      {
        accuN, accuA1, accuA2 :=
          CopyOneList(other, listNo, subsetType, a1, a2, accuN, accuA1, accuA2, ls, dst0, cp, base);
        listNo := listNo + 1;
      }
      assert cp[..nlist] == cp && ls[..nlist] == ls;
      CopyPrefixAll(dst0, cp);
    }

    /** copy_subset_to: appends to `other`, list by list, the entries the policy
        selects (type 0: ids in [a1, a2); type 1: id % a1 == a2; type 2: the
        proportional slice of each list), leaving this index unchanged. The
        final consistency assertion fails, after copying, when the lists do not
        hold exactly ntotal entries. */
    method CopySubsetTo(other: IndexIVF, subsetType: int, a1: int, a2: int) returns (o: Outcome)
      requires Valid() && other.Valid() && invlists != null && other.invlists != null
      requires other != this && other.invlists != invlists
      requires CompatibleForCopy(other, subsetType) ==> SubsetArgs(subsetType, a1, a2, ntotal, nlist)
      modifies other, other.invlists
      ensures other.Valid() && other.Settings() == old(other.Settings())
      ensures invlists.lists == old(invlists.lists) && ntotal == old(ntotal)
      ensures !CompatibleForCopy(other, subsetType) ==>
        && o.Fail? && o.error != AssertionFailure
        && other.invlists.lists == old(other.invlists.lists) && other.ntotal == old(other.ntotal)
      ensures CompatibleForCopy(other, subsetType) ==>
        && other.invlists.lists == Concat(old(other.invlists.lists), Copied(invlists.lists, subsetType, a1, a2, ntotal))
        && other.ntotal == old(other.ntotal) + TotalSize(Copied(invlists.lists, subsetType, a1, a2, ntotal))
        && o == (if TotalSize(invlists.lists) == ntotal then Pass else Fail(AssertionFailure))
      ensures old(other.ntotal) == old(TotalSize(other.invlists.lists)) ==>
        other.ntotal == TotalSize(other.invlists.lists)
    {
      if nlist != other.nlist || codeSize != other.codeSize {
        return Fail(ConfigurationMismatch);
      }
      if other.directMap != NoMap {
        return Fail(UnsupportedOperation);
      }
      if !(subsetType == 0 || subsetType == 1 || subsetType == 2) {
        return Fail(NotImplemented);
      }
      ghost var dst0 := other.invlists.lists;
      var accuN := CopyAllLists(other, subsetType, a1, a2, invlists.lists, Copied(invlists.lists, subsetType, a1, a2, ntotal));
      TotalSizeConcat(dst0, Copied(invlists.lists, subsetType, a1, a2, ntotal));
      o := if accuN == ntotal then Pass else Fail(AssertionFailure);
    }

    /** reset: every list becomes empty and ntotal returns to zero. */
    method Reset()
      requires Valid() && invlists != null
      modifies this, invlists
      ensures Valid() && Settings() == old(Settings())
      ensures invlists.lists == EmptyLists(nlist) && ntotal == 0
      ensures ntotal == TotalSize(invlists.lists)
    {
      invlists.Reset();
      ntotal := 0;
      TotalSizeOfEmpty(nlist);
    }

    /** remove_ids: removes the selected entries and lowers ntotal by the count removed. */
    method RemoveIds(sel: set<int>) returns (nremove: nat)
      requires Valid() && invlists != null
      modifies this, invlists
      ensures Valid() && Settings() == old(Settings())
      ensures invlists.lists == WithoutAll(old(invlists.lists), sel)
      ensures ntotal == old(ntotal) - nremove
      ensures nremove + TotalSize(invlists.lists) == old(TotalSize(invlists.lists))
      ensures old(ntotal) == old(TotalSize(invlists.lists)) ==> ntotal == TotalSize(invlists.lists)
    {
      nremove := invlists.RemoveIds(sel);
      ntotal := ntotal - nremove;
    }

    /** reconstruct_n: rejects a range outside [0, ntotal) unless it is empty;
        otherwise returns the positions it hands to reconstruct_from_offset. */
    method ReconstructN(i0: int, ni: int) returns (r: Result<seq<Pos>>)
      requires Valid() && invlists != null
      ensures r.Err? <==> !RangeOk(i0, ni, ntotal)
      ensures r.Err? ==> r.error == RangeError
      ensures r.Ok? ==> r.value == Hits(invlists.lists, i0, i0 + ni, |invlists.lists|)
    {
      if !(ni == 0 || (i0 >= 0 && i0 + ni <= ntotal)) {
        return Err(RangeError);
      }
      ghost var ls := invlists.lists;
      var hits: seq<Pos> := [];
      var listNo: nat := 0;
      while listNo < nlist
        invariant listNo <= nlist
        invariant hits == Hits(ls, i0, i0 + ni, listNo)
      {
        var size := invlists.ListSize(listNo);
        var offset: nat := 0;
        while offset < size
          invariant offset <= size
          invariant hits == Hits(ls, i0, i0 + ni, listNo) + ListHits(ls, listNo, i0, i0 + ni, offset)
        {
          var id := invlists.lists[listNo][offset].id;
          if id >= i0 && id < i0 + ni {
            hits := hits + [Pos(listNo, offset)];
          }
          offset := offset + 1;
        }
        listNo := listNo + 1;
      }
      r := Ok(hits);
    }

    /** sa_code_size: the bytes of a standalone code, the code itself after the
        coarse list number. */
    method SaCodeSize() returns (size: nat)
      ensures size >= codeSize && IsCoarseWidth(Nl(nlist), size - codeSize)
    {
      var coarse := CoarseCodeSize(nlist);
      size := codeSize + coarse;
    }

    /** replace_invlists with the geometry check made first: a rejected store
        leaves the index as it was; an accepted one becomes the index's store
        (the previous one is deleted when owned, unless it is the new one). */
    method ReplaceInvlists(il: ArrayInvertedLists?, own: bool) returns (o: Outcome)
      requires Valid() && (il != null ==> il.Valid())
      modifies this
      ensures o.Fail? <==> il != null && (il.nlist != nlist || il.codeSize != codeSize)
      ensures o.Fail? ==> o.error == ConfigurationMismatch && Settings() == old(Settings())
      ensures o.Pass? ==> invlists == il && ownInvlists == own
      ensures Valid() && ntotal == old(ntotal)
      ensures isTrained == old(isTrained) && directMap == old(directMap)
      ensures nprobe == old(nprobe) && maxCodes == old(maxCodes)
    {
      if il != null && !(il.nlist == nlist && il.codeSize == codeSize) {
        return Fail(ConfigurationMismatch);
      }
      invlists := il;
      ownInvlists := own;
      o := Pass;
    }

    /** replace_invlists as written: an owned store is deleted before the
        geometry check, so a rejected store leaves the index pointing at the
        deleted one, as does replacing an owned store by itself. */
    method ReplaceInvlistsAsWritten(il: ArrayInvertedLists?, own: bool) returns (o: Outcome)
      requires Valid() && (il != null ==> il.Valid())
      modifies this
      ensures o.Fail? <==> il != null && (il.nlist != nlist || il.codeSize != codeSize)
      ensures o.Fail? ==>
        && invlists == old(invlists) && ownInvlists == old(ownInvlists)
        && storeFreed == (old(ownInvlists) && old(invlists) != null)
      ensures o.Pass? ==>
        && invlists == il && ownInvlists == own
        && storeFreed == (old(ownInvlists) && il != null && il == old(invlists))
      ensures ntotal == old(ntotal) && isTrained == old(isTrained) && directMap == old(directMap)
      ensures nprobe == old(nprobe) && maxCodes == old(maxCodes)
    {
      var deleted: ArrayInvertedLists? := null;
      if ownInvlists && invlists != null {
        deleted := invlists;
        storeFreed := true;
      }
      if il != null && !(il.nlist == nlist && il.codeSize == codeSize) {
        return Fail(ConfigurationMismatch);
      }
      invlists := il;
      ownInvlists := own;
      storeFreed := deleted != null && deleted == il;
      o := Pass;
    }
  }

  /** A rejected replacement of an owned store leaves the index on a deleted store. */
  method ReplaceRejectedLeavesDeletedStore() returns (dangling: bool)
    ensures dangling
  {
    var index := new IndexIVF(8, 4, 16, 0, true, 4);
    var il := new ArrayInvertedLists(5, 16);
    var o := index.ReplaceInvlistsAsWritten(il, true);
    dangling := o.Fail? && index.invlists != null && index.storeFreed;
  }
}
