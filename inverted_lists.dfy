/**
 * The inverted-lists store: `nlist` lists of (id, code) entries, the value
 * functions that describe their contents, and the array-backed store class
 * the index owns.
 */
module InvertedLists {
  import opened Level1Quantizer

  /** One stored vector: its external id and its code bytes. */
  datatype Entry = Entry(id: int, code: seq<byte>)

  type Lists = seq<seq<Entry>>

  /** `n` empty lists. */
  function EmptyLists(n: nat): (r: Lists)
    ensures |r| == n && forall l :: 0 <= l < n ==> r[l] == []
  {
    seq(n, _ => [])
  }

  /** The number of entries over all lists. */
  function TotalSize(ls: Lists): nat
  {
    if ls == [] then 0 else TotalSize(ls[..|ls| - 1]) + |ls[|ls| - 1]|
  }

  lemma {:induction false} TotalSizeOfEmpty(n: nat)
    ensures TotalSize(EmptyLists(n)) == 0
  {
    if n > 0 {
      assert EmptyLists(n)[..n - 1] == EmptyLists(n - 1);
      TotalSizeOfEmpty(n - 1);
    }
  }

  /** List `l` extended by `tail`, the other lists as they were. */
  lemma {:induction false} TotalSizeExtendOne(ls: Lists, l: nat, tail: seq<Entry>)
    requires l < |ls|
    ensures TotalSize(ls[l := ls[l] + tail]) == TotalSize(ls) + |tail|
    decreases |ls|
  {
    var ls' := ls[l := ls[l] + tail];
    var n := |ls|;
    if l == n - 1 {
      assert ls'[..n - 1] == ls[..n - 1];
    } else {
      assert ls'[..n - 1] == ls[..n - 1][l := ls[l] + tail];
      TotalSizeExtendOne(ls[..n - 1], l, tail);
    }
  }

  /** List by list concatenation of two families of lists of the same count. */
  function Concat(a: Lists, b: Lists): (r: Lists)
    requires |a| == |b|
    ensures |r| == |a| && forall l :: 0 <= l < |a| ==> r[l] == a[l] + b[l]
  {
    seq(|a|, l requires 0 <= l < |a| => a[l] + b[l])
  }

  /** Concatenating list by list adds the entry counts. */
  lemma {:induction false} TotalSizeConcat(a: Lists, b: Lists)
    requires |a| == |b|
    ensures TotalSize(Concat(a, b)) == TotalSize(a) + TotalSize(b)
    decreases |a|
  {
    var n := |a|;
    if n > 0 {
      assert Concat(a, b)[..n - 1] == Concat(a[..n - 1], b[..n - 1]);
      TotalSizeConcat(a[..n - 1], b[..n - 1]);
    }
  }

  /** The entries of `s` with `delta` added to every id (merge with an id offset). */
  function ShiftIds(s: seq<Entry>, delta: int): (r: seq<Entry>)
    ensures |r| == |s|
    ensures forall k :: 0 <= k < |s| ==> r[k] == Entry(s[k].id + delta, s[k].code)
  {
    seq(|s|, k requires 0 <= k < |s| => Entry(s[k].id + delta, s[k].code))
  }

  function ShiftAll(ls: Lists, delta: int): (r: Lists)
    ensures |r| == |ls| && forall l :: 0 <= l < |ls| ==> r[l] == ShiftIds(ls[l], delta)
  {
    seq(|ls|, l requires 0 <= l < |ls| => ShiftIds(ls[l], delta))
  }

  lemma {:induction false} TotalSizeShift(ls: Lists, delta: int)
    ensures TotalSize(ShiftAll(ls, delta)) == TotalSize(ls)
    decreases |ls|
  {
    var n := |ls|;
    if n > 0 {
      assert ShiftAll(ls, delta)[..n - 1] == ShiftAll(ls[..n - 1], delta);
      TotalSizeShift(ls[..n - 1], delta);
    }
  }

  /** The entries of `s` whose id is not selected, in their original order. */
  function Without(s: seq<Entry>, sel: set<int>): seq<Entry>
  {
    if s == [] then []
    else Without(s[..|s| - 1], sel) + (if s[|s| - 1].id in sel then [] else [s[|s| - 1]])
  }

  /** An entry survives removal exactly when it was there and is not selected. */
  lemma {:induction false} WithoutMembers(s: seq<Entry>, sel: set<int>, e: Entry)
    ensures e in Without(s, sel) <==> e in s && e.id !in sel
    ensures |Without(s, sel)| <= |s|
  {
    if s != [] {
      WithoutMembers(s[..|s| - 1], sel, e);
      assert s == s[..|s| - 1] + [s[|s| - 1]];
    }
  }

  function WithoutAll(ls: Lists, sel: set<int>): (r: Lists)
    ensures |r| == |ls| && forall l :: 0 <= l < |ls| ==> r[l] == Without(ls[l], sel)
  {
    seq(|ls|, l requires 0 <= l < |ls| => Without(ls[l], sel))
  }

  /** Removal never adds entries. */
  lemma {:induction false} WithoutAllShrinks(ls: Lists, sel: set<int>)
    ensures TotalSize(WithoutAll(ls, sel)) <= TotalSize(ls)
    decreases |ls|
  {
    var n := |ls|;
    if n > 0 {
      assert WithoutAll(ls, sel)[..n - 1] == WithoutAll(ls[..n - 1], sel);
      WithoutAllShrinks(ls[..n - 1], sel);
      WithoutMembers(ls[n - 1], sel, Entry(0, []));
    }
  }

  /** Every stored code is `codeSize` bytes long. */
  ghost predicate CodesFit(ls: Lists, codeSize: nat)
  {
    forall l, k :: 0 <= l < |ls| && 0 <= k < |ls[l]| ==> |ls[l][k].code| == codeSize
  }

  /** The array-backed store: one sequence of entries per list. */
  class ArrayInvertedLists {
    const nlist: nat
    const codeSize: nat
    var lists: Lists

    ghost predicate Valid()
      reads this
    {
      |lists| == nlist && CodesFit(lists, codeSize)
    }

    constructor (nlist: nat, codeSize: nat)
      ensures Valid() && this.nlist == nlist && this.codeSize == codeSize
      ensures lists == EmptyLists(nlist)
    {
      this.nlist := nlist;
      this.codeSize := codeSize;
      lists := EmptyLists(nlist);
    }

    function ListSize(l: nat): nat
      reads this
      requires Valid() && l < nlist
    {
      |lists[l]|
    }

    /** add_entry: appends one entry to list `l` and returns its offset there. */
    method AddEntry(l: nat, id: int, code: seq<byte>) returns (ofs: nat)
      requires Valid() && l < nlist && |code| == codeSize
      modifies this
      ensures Valid()
      ensures lists == old(lists)[l := old(lists[l]) + [Entry(id, code)]]
      ensures ofs == |old(lists[l])| && lists[l][ofs] == Entry(id, code)
    {
      ofs := |lists[l]|;
      lists := lists[l := lists[l] + [Entry(id, code)]];
    }

    /** reset: every list becomes empty. */
    method Reset()
      requires Valid()
      modifies this
      ensures Valid() && lists == EmptyLists(nlist)
    {
      lists := EmptyLists(nlist);
    }

    /** merge_from: appends the other store's lists, ids shifted by `addId`, and
        empties the other store. */
    method MergeFrom(other: ArrayInvertedLists, addId: int)
      requires Valid() && other.Valid() && other != this && other.nlist == nlist && other.codeSize == codeSize
      modifies this, other
      ensures Valid() && other.Valid()
      ensures lists == Concat(old(lists), ShiftAll(old(other.lists), addId))
      ensures other.lists == EmptyLists(nlist)
    {
      lists := Concat(lists, ShiftAll(other.lists, addId));
      other.lists := EmptyLists(nlist);
    }

    /** Removes the entries whose id is selected; returns how many were removed. */
    method RemoveIds(sel: set<int>) returns (nremove: nat)
      requires Valid()
      modifies this
      ensures Valid() && lists == WithoutAll(old(lists), sel)
      ensures nremove + TotalSize(lists) == TotalSize(old(lists))
    {
      WithoutAllShrinks(lists, sel);
      var kept: Lists := WithoutAll(lists, sel);
      forall l: nat, k: nat | l < |kept| && k < |kept[l]|
        ensures |kept[l][k].code| == codeSize
      {
        var e: Entry := kept[l][k];
        WithoutMembers(lists[l], sel, e);
      }
      nremove := TotalSize(lists) - TotalSize(kept);
      lists := kept;
    }
  }
}
