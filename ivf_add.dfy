/**
 * What `add_with_ids` does to the inverted lists, stated on values: entry `i`
 * of a batch goes to list `assign[i]` (nowhere when that is negative) with id
 * `xids[i]`, or `base + i` when no ids are given.
 */
module IvfAdd {
  import opened Status
  import opened Level1Quantizer
  import opened InvertedLists

  /** The shape of one batch: assignments, codes and optional ids agree in length. */
  ghost predicate BatchShape(assign: seq<int>, xids: Option<seq<int>>, codes: seq<seq<byte>>)
  {
    |codes| == |assign| && (xids.Some? ==> |xids.value| == |assign|)
  }

  /** The id stored for input `i`. */
  function IdOf(xids: Option<seq<int>>, base: int, i: nat): int
    requires xids.Some? ==> i < |xids.value|
  {
    if xids.Some? then xids.value[i] else base + i
  }

  /** The entries of inputs `lo..hi`, in input order, that list `l` receives. */
  function Picked(l: int, assign: seq<int>, xids: Option<seq<int>>, base: int,
                  codes: seq<seq<byte>>, lo: nat, hi: nat): seq<Entry>
    requires BatchShape(assign, xids, codes) && lo <= hi <= |assign|
    decreases hi
  {
    if hi == lo then []
    else Picked(l, assign, xids, base, codes, lo, hi - 1)
         + (if assign[hi - 1] == l then [Entry(IdOf(xids, base, hi - 1), codes[hi - 1])] else [])
  }

  /** The lists after inputs `lo..hi` have been distributed over them. */
  function AddedLists(ls: Lists, assign: seq<int>, xids: Option<seq<int>>, base: int,
                      codes: seq<seq<byte>>, lo: nat, hi: nat): (r: Lists)
    requires BatchShape(assign, xids, codes) && lo <= hi <= |assign|
    ensures |r| == |ls|
    ensures forall l :: 0 <= l < |ls| ==> r[l] == ls[l] + Picked(l, assign, xids, base, codes, lo, hi)
  {
    seq(|ls|, l requires 0 <= l < |ls| => ls[l] + Picked(l, assign, xids, base, codes, lo, hi))
  }

  /** The lists while worker `rank` of `nt` is at input `i`, the workers taking
      their turn in rank order: each worker walks over all of `lo..hi` and
      appends an input only when it owns the input's list, that is when the
      list number is congruent to its rank modulo `nt`. */
  function RankProgress(ls: Lists, assign: seq<int>, xids: Option<seq<int>>, base: int,
                        codes: seq<seq<byte>>, lo: nat, hi: nat, nt: nat, rank: nat, i: nat): (r: Lists)
    requires BatchShape(assign, xids, codes) && lo <= i <= hi <= |assign| && nt >= 1
    ensures |r| == |ls|
    decreases rank, i
  {
    if i > lo then
      var cur := RankProgress(ls, assign, xids, base, codes, lo, hi, nt, rank, i - 1);
      var a := assign[i - 1];
      if 0 <= a < |cur| && a % nt == rank
      then cur[a := cur[a] + [Entry(IdOf(xids, base, i - 1), codes[i - 1])]]
      else cur
    else if rank > 0 then RankProgress(ls, assign, xids, base, codes, lo, hi, nt, rank - 1, hi)
    else ls
  }

  /** Where the schedule stands: workers below `rank` have appended all of their
      inputs, worker `rank` those of `lo..i`, and the others nothing yet. */
  lemma {:induction false} RankProgressAt(ls: Lists, assign: seq<int>, xids: Option<seq<int>>, base: int,
                                          codes: seq<seq<byte>>, lo: nat, hi: nat, nt: nat, rank: nat, i: nat, l: nat)
    requires BatchShape(assign, xids, codes) && lo <= i <= hi <= |assign| && nt >= 1 && l < |ls|
    ensures RankProgress(ls, assign, xids, base, codes, lo, hi, nt, rank, i)[l]
         == ls[l] + (if l % nt < rank then Picked(l, assign, xids, base, codes, lo, hi)
                     else if l % nt == rank then Picked(l, assign, xids, base, codes, lo, i)
                     else [])
    decreases rank, i
  {
    if i > lo {
      RankProgressAt(ls, assign, xids, base, codes, lo, hi, nt, rank, i - 1, l);
      var p := Picked(l, assign, xids, base, codes, lo, i - 1);
      var e := Entry(IdOf(xids, base, i - 1), codes[i - 1]);
      if assign[i - 1] == l && l % nt == rank {
        assert ls[l] + p + [e] == ls[l] + (p + [e]);
      } else if l % nt == rank {
        assert p + [] == p;
      }
    } else if rank > 0 {
      RankProgressAt(ls, assign, xids, base, codes, lo, hi, nt, rank - 1, hi, l);
      assert ls[l] + [] == ls[l];
    } else {
      assert ls[l] + [] == ls[l];
    }
  }

  /** After all `nt` workers, every input is in its list: the partition by rank
      gives the same lists as adding the inputs in order. */
  lemma RankProgressDone(ls: Lists, assign: seq<int>, xids: Option<seq<int>>, base: int,
                         codes: seq<seq<byte>>, lo: nat, hi: nat, nt: nat)
    requires BatchShape(assign, xids, codes) && lo <= hi <= |assign| && nt >= 1
    ensures RankProgress(ls, assign, xids, base, codes, lo, hi, nt, nt, lo)
         == AddedLists(ls, assign, xids, base, codes, lo, hi)
  {
    forall l | 0 <= l < |ls|
      ensures RankProgress(ls, assign, xids, base, codes, lo, hi, nt, nt, lo)[l]
           == AddedLists(ls, assign, xids, base, codes, lo, hi)[l]
    {
      RankProgressAt(ls, assign, xids, base, codes, lo, hi, nt, nt, lo, l);
    }
  }

  /** How many of inputs `lo..hi` have a list (a non-negative assignment). */
  function Assigned(assign: seq<int>, lo: nat, hi: nat): nat
    requires lo <= hi <= |assign|
    decreases hi
  {
    if hi == lo then 0 else Assigned(assign, lo, hi - 1) + (if assign[hi - 1] >= 0 then 1 else 0)
  }

  /** Distributing `lo..mid` and then `mid..hi` is distributing `lo..hi`: the
      65536-entry batches of a large add give the same lists as one batch. */
  lemma {:induction false} PickedSplit(l: int, assign: seq<int>, xids: Option<seq<int>>, base: int,
                                      codes: seq<seq<byte>>, lo: nat, mid: nat, hi: nat)
    requires BatchShape(assign, xids, codes) && lo <= mid <= hi <= |assign|
    ensures Picked(l, assign, xids, base, codes, lo, mid) + Picked(l, assign, xids, base, codes, mid, hi)
         == Picked(l, assign, xids, base, codes, lo, hi)
    decreases hi
  {
    if hi > mid {
      PickedSplit(l, assign, xids, base, codes, lo, mid, hi - 1);
    }
  }

  lemma AddedListsSplit(ls: Lists, assign: seq<int>, xids: Option<seq<int>>, base: int,
                        codes: seq<seq<byte>>, lo: nat, mid: nat, hi: nat)
    requires BatchShape(assign, xids, codes) && lo <= mid <= hi <= |assign|
    ensures AddedLists(AddedLists(ls, assign, xids, base, codes, lo, mid), assign, xids, base, codes, mid, hi)
         == AddedLists(ls, assign, xids, base, codes, lo, hi)
  {
    forall l | 0 <= l < |ls|
      ensures AddedLists(AddedLists(ls, assign, xids, base, codes, lo, mid), assign, xids, base, codes, mid, hi)[l]
           == AddedLists(ls, assign, xids, base, codes, lo, hi)[l]
    {
      PickedSplit(l, assign, xids, base, codes, lo, mid, hi);
    }
  }

  /** Each input `i` of `lo..hi` is in list `l` exactly when it is assigned to `l`,
      with its id and code: a negative assignment puts it in no list. */
  lemma {:induction false} PickedMembers(l: int, assign: seq<int>, xids: Option<seq<int>>, base: int,
                                         codes: seq<seq<byte>>, lo: nat, hi: nat, e: Entry)
    requires BatchShape(assign, xids, codes) && lo <= hi <= |assign|
    ensures e in Picked(l, assign, xids, base, codes, lo, hi) <==>
      exists i :: lo <= i < hi && assign[i] == l && e == Entry(IdOf(xids, base, i), codes[i])
    decreases hi
  {
    if hi > lo {
      PickedMembers(l, assign, xids, base, codes, lo, hi - 1, e);
    }
  }

  /** Input `hi - 1` goes to the end of its list, or nowhere when its assignment is negative. */
  lemma AddedListsStep(ls: Lists, assign: seq<int>, xids: Option<seq<int>>, base: int,
                       codes: seq<seq<byte>>, lo: nat, hi: nat)
    requires BatchShape(assign, xids, codes) && lo < hi <= |assign| && assign[hi - 1] < |ls|
    ensures assign[hi - 1] >= 0 ==>
      AddedLists(ls, assign, xids, base, codes, lo, hi)
      == AddedLists(ls, assign, xids, base, codes, lo, hi - 1)[assign[hi - 1] :=
           AddedLists(ls, assign, xids, base, codes, lo, hi - 1)[assign[hi - 1]]
           + [Entry(IdOf(xids, base, hi - 1), codes[hi - 1])]]
    ensures assign[hi - 1] < 0 ==>
      AddedLists(ls, assign, xids, base, codes, lo, hi) == AddedLists(ls, assign, xids, base, codes, lo, hi - 1)
  {
    var prev := AddedLists(ls, assign, xids, base, codes, lo, hi - 1);
    var next := AddedLists(ls, assign, xids, base, codes, lo, hi);
    var a := assign[hi - 1];
    var e := Entry(IdOf(xids, base, hi - 1), codes[hi - 1]);
    if a >= 0 {
      forall l | 0 <= l < |ls| ensures next[l] == prev[a := prev[a] + [e]][l] {
        var p := Picked(l, assign, xids, base, codes, lo, hi - 1);
        if l == a {
          assert next[l] == ls[l] + (p + [e]);
        } else {
          assert next[l] == ls[l] + (p + []);
        }
      }
    } else {
      forall l | 0 <= l < |ls| ensures next[l] == prev[l] {
        var p := Picked(l, assign, xids, base, codes, lo, hi - 1);
        assert next[l] == ls[l] + (p + []);
      }
    }
  }

  /** Every input with a list is added exactly once: the lists grow by the number
      of non-negative assignments, no more and no fewer. */
  lemma {:induction false} AddedListsSize(ls: Lists, assign: seq<int>, xids: Option<seq<int>>, base: int,
                                          codes: seq<seq<byte>>, lo: nat, hi: nat)
    requires BatchShape(assign, xids, codes) && lo <= hi <= |assign|
    requires forall i :: lo <= i < hi ==> assign[i] < |ls|
    ensures TotalSize(AddedLists(ls, assign, xids, base, codes, lo, hi)) == TotalSize(ls) + Assigned(assign, lo, hi)
    decreases hi
  {
    if hi == lo {
      var r := AddedLists(ls, assign, xids, base, codes, lo, hi);
      forall l | 0 <= l < |ls| ensures r[l] == ls[l] {
        assert ls[l] + [] == ls[l];
      }
      assert r == ls;
    } else {
      AddedListsSize(ls, assign, xids, base, codes, lo, hi - 1);
      AddedListsStep(ls, assign, xids, base, codes, lo, hi);
      if assign[hi - 1] >= 0 {
        var prev := AddedLists(ls, assign, xids, base, codes, lo, hi - 1);
        TotalSizeExtendOne(prev, assign[hi - 1], [Entry(IdOf(xids, base, hi - 1), codes[hi - 1])]);
      }
    }
  }

  /** `ntotal == TotalSize(lists)` is not kept by an add: `ntotal` grows by the
      whole batch while the lists grow only by the inputs that have a list, so a
      single negative assignment leaves `ntotal` ahead of the stored entries. */
  lemma AddWithNegativeBreaksCount(ls: Lists, assign: seq<int>, xids: Option<seq<int>>, ntotal: int,
                                   codes: seq<seq<byte>>)
    requires BatchShape(assign, xids, codes)
    requires forall i :: 0 <= i < |assign| ==> assign[i] < |ls|
    requires ntotal == TotalSize(ls)
    requires exists i :: 0 <= i < |assign| && assign[i] < 0
    ensures TotalSize(AddedLists(ls, assign, xids, ntotal, codes, 0, |assign|)) < ntotal + |assign|
  {
    AddedListsSize(ls, assign, xids, ntotal, codes, 0, |assign|);
    var i :| 0 <= i < |assign| && assign[i] < 0;
    AssignedBelowCount(assign, 0, |assign|, i);
  }

  lemma {:induction false} AssignedBelowCount(assign: seq<int>, lo: nat, hi: nat, i: nat)
    requires lo <= i < hi <= |assign| && assign[i] < 0
    ensures Assigned(assign, lo, hi) < hi - lo
    decreases hi
  {
    if i < hi - 1 {
      AssignedBelowCount(assign, lo, hi - 1, i);
    } else {
      AssignedAtMost(assign, lo, hi - 1);
    }
  }

  lemma {:induction false} AssignedAtMost(assign: seq<int>, lo: nat, hi: nat)
    requires lo <= hi <= |assign|
    ensures Assigned(assign, lo, hi) <= hi - lo
    decreases hi
  {
    if hi > lo {
      AssignedAtMost(assign, lo, hi - 1);
    }
  }
}
