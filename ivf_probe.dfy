/**
 * Which lists one query of `search_preassigned` (parallel mode 0) scans, and
 * how many codes it scans, stated on the list sizes and the query's probe keys.
 * The scanner itself (distances, heap) is outside this model: what is kept is
 * the order of the lists handed to it and the `max_codes` budget rule.
 */
module IvfProbe {
  import opened Status

  /** The lists a query scanned, in probe order, and the codes it scanned. */
  datatype Probe = Probe(scanned: seq<nat>, nscan: nat)

  /** Codes scanned for one probe key: none for a negative, out-of-range or empty list. */
  function Contribution(sizes: seq<nat>, key: int): nat
  {
    if 0 <= key < |sizes| then sizes[key] else 0
  }

  /** Codes scanned by the probes `keys`, all of them visited. */
  function ScanCount(sizes: seq<nat>, keys: seq<int>): nat
  {
    if keys == [] then 0
    else ScanCount(sizes, keys[..|keys| - 1]) + Contribution(sizes, keys[|keys| - 1])
  }

  /** The lists handed to the scanner for the probes `keys`: valid, non-empty ones. */
  function ScannedLists(sizes: seq<nat>, keys: seq<int>): seq<nat>
  {
    if keys == [] then []
    else
      var k := keys[|keys| - 1];
      ScannedLists(sizes, keys[..|keys| - 1])
      + (if 0 <= k < |sizes| && sizes[k] > 0 then [k as nat] else [])
  }

  /** After the first `j` probes the cumulative count has reached a non-zero budget. */
  predicate BudgetHit(sizes: seq<nat>, keys: seq<int>, maxCodes: int, j: nat)
    requires j <= |keys|
  {
    maxCodes != 0 && ScanCount(sizes, keys[..j]) >= maxCodes
  }

  /** The number of probes visited when `j` have been visited and no budget hit yet. */
  function VisitedFrom(sizes: seq<nat>, keys: seq<int>, maxCodes: int, j: nat): (v: nat)
    requires j <= |keys|
    ensures j <= v <= |keys| && (j < |keys| ==> j < v)
    decreases |keys| - j
  {
    if j == |keys| then j
    else if BudgetHit(sizes, keys, maxCodes, j + 1) then j + 1
    else VisitedFrom(sizes, keys, maxCodes, j + 1)
  }

  function Visited(sizes: seq<nat>, keys: seq<int>, maxCodes: int): nat
  {
    VisitedFrom(sizes, keys, maxCodes, 0)
  }

  /** One query: the visited probes must all be below nlist (else InvalidKey aborts
      the call); then the lists scanned and the codes counted are those of the
      visited probes. */
  function ProbeQuery(sizes: seq<nat>, keys: seq<int>, maxCodes: int): Result<Probe>
  {
    var v := Visited(sizes, keys, maxCodes);
    if exists i :: 0 <= i < v && keys[i] >= |sizes| then Err(InvalidKey)
    else Ok(Probe(ScannedLists(sizes, keys[..v]), ScanCount(sizes, keys[..v])))
  }

  /** The probe keys of query `q` in the flat `n * nprobe` key array. */
  function Row(keys: seq<int>, nprobe: nat, q: nat): seq<int>
    requires q * nprobe + nprobe <= |keys|
  {
    keys[q * nprobe..q * nprobe + nprobe]
  }

  lemma RowBound(q: nat, n: nat, nprobe: nat)
    requires q < n
    ensures (q + 1) * nprobe == q * nprobe + nprobe <= n * nprobe
  {
    assert q * nprobe + nprobe == (q + 1) * nprobe;
  }

  /** Queries `0..q` in order; the first query that fails aborts them all. */
  function SearchUpTo(sizes: seq<nat>, keys: seq<int>, nprobe: nat, maxCodes: int, q: nat): Result<seq<Probe>>
    requires q * nprobe <= |keys|
  {
    if q == 0 then Ok([])
    else
      assert (q - 1) * nprobe + nprobe == q * nprobe;
      match SearchUpTo(sizes, keys, nprobe, maxCodes, q - 1)
      case Err(e) => Err(e)
      case Ok(ps) =>
        match ProbeQuery(sizes, Row(keys, nprobe, q - 1), maxCodes)
        case Err(e) => Err(e)
        case Ok(p) => Ok(ps + [p])
  }

  /** Once a query has aborted the search, later queries change nothing. */
  lemma {:induction false} SearchUpToAborted(sizes: seq<nat>, keys: seq<int>, nprobe: nat, maxCodes: int, q: nat, n: nat)
    requires q <= n && q * nprobe <= |keys| && n * nprobe <= |keys|
    requires SearchUpTo(sizes, keys, nprobe, maxCodes, q).Err?
    ensures SearchUpTo(sizes, keys, nprobe, maxCodes, n) == SearchUpTo(sizes, keys, nprobe, maxCodes, q)
    decreases n
  {
    if n > q {
      RowBound(n - 1, n, nprobe);
      SearchUpToAborted(sizes, keys, nprobe, maxCodes, q, n - 1);
    }
  }

  lemma {:induction false} VisitedFromStops(sizes: seq<nat>, keys: seq<int>, maxCodes: int, j: nat)
    requires j <= |keys|
    ensures var v := VisitedFrom(sizes, keys, maxCodes, j);
      (forall t :: j < t < v ==> !BudgetHit(sizes, keys, maxCodes, t))
      && (v < |keys| ==> BudgetHit(sizes, keys, maxCodes, v))
    decreases |keys| - j
  {
    if j < |keys| && !BudgetHit(sizes, keys, maxCodes, j + 1) {
      VisitedFromStops(sizes, keys, maxCodes, j + 1);
    }
  }

  /** The budget rule: probing stops right after the first probe at which the
      cumulative count reaches a non-zero `max_codes`, and with `max_codes == 0`
      all probes are visited. So the count before the last visited probe is
      still below the budget. */
  lemma ProbeStopsAtFirstBudgetHit(sizes: seq<nat>, keys: seq<int>, maxCodes: int)
    ensures var v := Visited(sizes, keys, maxCodes);
      && v <= |keys|
      && (forall t :: 1 <= t < v ==> !BudgetHit(sizes, keys, maxCodes, t))
      && (v < |keys| ==> BudgetHit(sizes, keys, maxCodes, v))
      && (maxCodes == 0 ==> v == |keys|)
      && (maxCodes != 0 && 2 <= v ==> ScanCount(sizes, keys[..v - 1]) < maxCodes)
  {
    VisitedFromStops(sizes, keys, maxCodes, 0);
    var v := Visited(sizes, keys, maxCodes);
    if maxCodes != 0 && 2 <= v {
      assert !BudgetHit(sizes, keys, maxCodes, v - 1);
    }
  }

  /** The scanned lists are valid, non-empty lists, and the count is the sum of
      their sizes: negative keys and empty lists add nothing. */
  lemma {:induction false} ScannedListsSound(sizes: seq<nat>, keys: seq<int>)
    ensures var ls := ScannedLists(sizes, keys);
      forall i :: 0 <= i < |ls| ==> ls[i] < |sizes| && sizes[ls[i]] > 0
    ensures ScanCount(sizes, keys) == SumSizes(sizes, ScannedLists(sizes, keys))
  {
    if keys != [] {
      var init := keys[..|keys| - 1];
      ScannedListsSound(sizes, init);
      var k := keys[|keys| - 1];
      var ls := ScannedLists(sizes, keys);
      if 0 <= k < |sizes| && sizes[k] > 0 {
        assert ls[..|ls| - 1] == ScannedLists(sizes, init);
      } else {
        assert ls == ScannedLists(sizes, init);
      }
    }
  }

  /** The total size of the lists `ls`. */
  function SumSizes(sizes: seq<nat>, ls: seq<nat>): nat
    requires forall i :: 0 <= i < |ls| ==> ls[i] < |sizes|
  {
    if ls == [] then 0 else SumSizes(sizes, ls[..|ls| - 1]) + sizes[ls[|ls| - 1]]
  }
}
