/** `EClassSearcher`: given a template e-node and an e-class's node list, the
    contiguous run of nodes that match the template, handed out one at a time.
    Short lists are scanned; long ones are binary-searched for two sentinels. */
module Searchers {
  import opened Lang

  /** Lists with fewer nodes than this are scanned linearly. */
  const LinearLimit: nat := 100

  /** What `slice::binary_search` returns: `Ok` with the index of an equal
      element, or `Err` with the insertion point. */
  datatype SearchResult = Ok(index: nat) | Err(index: nat)

  /** An e-class searcher is a slice iterator: `nodes` is what it has not yet
      handed out; `node` is the template, kept for the debug-build check. */
  datatype EClassSearcher = EClassSearcher(node: ENode, nodes: seq<ENode>) {

    /** The debug-build check holds for every node still to come. */
    predicate Valid() {
      forall n :: n in nodes ==> Matches(node, n)
    }

    /** `next`: the first remaining node (which matches the template), and the
        searcher advanced past it; `None` once the slice is used up. */
    function Next(): (r: (Option<ENode>, EClassSearcher))
      requires Valid()
      ensures r.1.node == node && r.1.Valid()
      ensures nodes == [] ==> r.0.None? && r.1.nodes == []
      ensures nodes != [] ==> r.0 == Some(nodes[0]) && Matches(node, nodes[0]) && r.1.nodes == nodes[1..]
    {
      if |nodes| == 0 then (None, this)
      else
        var n := nodes[0];
        assert Matches(node, n);
        (Some(n), this.(nodes := nodes[1..]))
    }
  }

  /** The specification of a search: the nodes of `nodes` that match `node`,
      in their order. */
  function Matching(node: ENode, nodes: seq<ENode>): (r: seq<ENode>)
    ensures |r| <= |nodes|
    ensures forall n :: n in r ==> n in nodes && Matches(node, n)
  {
    if |nodes| == 0 then []
    else (if Matches(node, nodes[0]) then [nodes[0]] else []) + Matching(node, nodes[1..])
  }

  lemma SortedBelow(s: seq<ENode>, key: ENode, mid: nat)
    requires mid < |s|
    ensures Sorted(s) && Less(s[mid], key) ==> forall k :: 0 <= k <= mid ==> Less(s[k], key)
  {
    if Sorted(s) && Less(s[mid], key) {
      forall k | 0 <= k < mid ensures Less(s[k], key) {
        LessTransitive(s[k], s[mid], key);
      }
    }
  }

  lemma SortedAbove(s: seq<ENode>, key: ENode, mid: nat)
    requires mid < |s|
    ensures Sorted(s) && !Less(s[mid], key) && s[mid] != key ==> forall k :: mid <= k < |s| ==> Less(key, s[k])
  {
    if Sorted(s) && !Less(s[mid], key) && s[mid] != key {
      LessTotal(s[mid], key);
      forall k | mid < k < |s| ensures Less(key, s[k]) {
        LessTransitive(key, s[mid], s[k]);
      }
    }
  }

  /** Binary search of `key` within `s[lo..hi]`. */
  function SearchIn(s: seq<ENode>, key: ENode, lo: nat, hi: nat): (r: SearchResult)
    requires lo <= hi <= |s|
    ensures r.Ok? ==> lo <= r.index < hi && s[r.index] == key
    ensures r.Err? ==> lo <= r.index <= hi
    ensures (r.Err? && Sorted(s) &&
             (forall k :: 0 <= k < lo ==> Less(s[k], key)) &&
             (forall k :: hi <= k < |s| ==> Less(key, s[k]))) ==>
              (forall k :: 0 <= k < r.index ==> Less(s[k], key)) &&
              (forall k :: r.index <= k < |s| ==> Less(key, s[k]))
    decreases hi - lo
  {
    if lo == hi then Err(lo)
    else
      var mid := (lo + hi) / 2;
      SortedBelow(s, key, mid);
      SortedAbove(s, key, mid);
      if Less(s[mid], key) then SearchIn(s, key, mid + 1, hi)
      else if s[mid] == key then Ok(mid)
      else SearchIn(s, key, lo, mid)
  }

  /** `slice::binary_search`: on a sorted slice, `Ok(i)` finds `key` at `i`,
      and `Err(i)` says `key` is absent and belongs at `i`. */
  function BinarySearch(s: seq<ENode>, key: ENode): (r: SearchResult)
    ensures r.Ok? ==> r.index < |s| && s[r.index] == key
    ensures key !in s ==> r.Err?
    ensures r.Err? ==> r.index <= |s|
    ensures r.Err? && Sorted(s) ==>
              (forall k :: 0 <= k < r.index ==> Less(s[k], key)) &&
              (forall k :: r.index <= k < |s| ==> Less(key, s[k]))
  {
    SearchIn(s, key, 0, |s|)
  }

  /** `Iterator::position` over `s` with the predicate `node.matches(n) == want`:
      the index of the first node that satisfies it. */
  function Position(s: seq<ENode>, node: ENode, want: bool): (r: Option<nat>)
    ensures r.Some? ==> r.value < |s| && Matches(node, s[r.value]) == want &&
                        forall k :: 0 <= k < r.value ==> Matches(node, s[k]) != want
    ensures r.None? ==> forall k :: 0 <= k < |s| ==> Matches(node, s[k]) != want
  {
    if |s| == 0 then None
    else if Matches(node, s[0]) == want then Some(0)
    else match Position(s[1..], node, want)
      case None => None
      case Some(k) => Some(k + 1)
  }

  /** The linear strategy: from the first matching node up to the first
      non-matching node after it (or the end); empty when nothing matches. */
  function LinearRange(node: ENode, nodes: seq<ENode>): (r: (nat, nat))
    ensures r.0 <= r.1 <= |nodes|
    ensures forall k :: r.0 <= k < r.1 ==> Matches(node, nodes[k])
    ensures r.0 < r.1 <==> exists k :: 0 <= k < |nodes| && Matches(node, nodes[k])
    ensures forall k :: 0 <= k < r.0 ==> !Matches(node, nodes[k])
    ensures r.1 < |nodes| ==> !Matches(node, nodes[r.1])
  {
    match Position(nodes, node, true)
    case None => (0, 0)
    case Some(start) =>
      match Position(nodes[start + 1..], node, false)
      case None => (start, |nodes|)
      case Some(offset) => (start, start + offset + 1)
  }

  /** The binary-search strategy: `start` is where the all-zero sentinel
      belongs, and the run ends where the all-`IdMax` sentinel belongs in the
      rest. The source panics if that sentinel is itself in the list. */
  function SortedRange(node: ENode, nodes: seq<ENode>): (r: (nat, nat))
    requires MapChildren(node, IdMax) !in nodes
    ensures r.0 <= r.1 <= |nodes|
    ensures Sorted(nodes) ==>
              (forall k :: 0 <= k < r.0 ==> Less(nodes[k], MapChildren(node, 0))) &&
              (forall k :: r.0 <= k < |nodes| ==> !Less(nodes[k], MapChildren(node, 0))) &&
              (forall k :: r.0 <= k < r.1 ==> Less(nodes[k], MapChildren(node, IdMax))) &&
              (forall k :: r.1 <= k < |nodes| ==> !Less(nodes[k], MapChildren(node, IdMax)))
  {
    var zero := MapChildren(node, 0);
    var found := BinarySearch(nodes, zero);
    var start := match found case Ok(i) => i case Err(i) => i;
    InsertionPoint(nodes, zero, found);
    var big := MapChildren(zero, IdMax);
    assert big !in nodes[start..];
    var searched := BinarySearch(nodes[start..], big);
    // `expect_err`: the upper sentinel is not in the list, so the search fails
    assert searched.Err?;
    var offset := searched.index;
    SuffixInsertionPoint(nodes, start, big, offset);
    (start, start + offset)
  }

  /** Whichever way the search for `key` ends, the index it yields splits a
      sorted list into the nodes below `key` and the rest. */
  lemma InsertionPoint(nodes: seq<ENode>, key: ENode, found: SearchResult)
    requires found == BinarySearch(nodes, key)
    ensures found.index <= |nodes|
    ensures Sorted(nodes) ==>
              (forall k :: 0 <= k < found.index ==> Less(nodes[k], key)) &&
              (forall k :: found.index <= k < |nodes| ==> !Less(nodes[k], key))
  {
    if Sorted(nodes) {
      forall k | found.index <= k < |nodes| ensures !Less(nodes[k], key) {
        if nodes[k] == key {
          LessIrreflexive(key);
        } else {
          if found.Ok? {
            assert Less(nodes[found.index], nodes[k]);
          }
          LessAsymmetric(key, nodes[k]);
        }
      }
      if found.Ok? {
        forall k | 0 <= k < found.index ensures Less(nodes[k], key) {
          assert Less(nodes[k], nodes[found.index]);
        }
      }
    }
  }

  /** An insertion point found in a suffix of a sorted list, read back on the
      whole list. */
  lemma SuffixInsertionPoint(nodes: seq<ENode>, start: nat, key: ENode, offset: nat)
    requires start <= |nodes|
    requires BinarySearch(nodes[start..], key) == Err(offset)
    ensures start + offset <= |nodes|
    ensures Sorted(nodes) ==>
              (forall k :: start <= k < start + offset ==> Less(nodes[k], key)) &&
              (forall k :: start + offset <= k < |nodes| ==> !Less(nodes[k], key))
  {
    if Sorted(nodes) {
      var suffix := nodes[start..];
      assert Sorted(suffix);
      forall k | start <= k < |nodes| ensures (k < start + offset ==> Less(nodes[k], key)) && (k >= start + offset ==> !Less(nodes[k], key)) {
        assert nodes[k] == suffix[k - start];
        if k >= start + offset {
          LessAsymmetric(key, nodes[k]);
        }
      }
    }
  }

  /** A run that holds exactly the matching nodes is the specification's result. */
  lemma {:induction false} MatchingOfRun(node: ENode, nodes: seq<ENode>, lo: nat, hi: nat)
    requires lo <= hi <= |nodes|
    requires forall k :: 0 <= k < |nodes| ==> (lo <= k < hi <==> Matches(node, nodes[k]))
    ensures nodes[lo..hi] == Matching(node, nodes)
    decreases |nodes|
  {
    if |nodes| > 0 {
      var rest := nodes[1..];
      assert Matching(node, nodes) == (if Matches(node, nodes[0]) then [nodes[0]] else []) + Matching(node, rest);
      RestRun(node, nodes, lo, hi);
      if lo > 0 {
        assert nodes[lo..hi] == Matching(node, rest) by {
          MatchingOfRun(node, rest, lo - 1, hi - 1);
          TailSlice(nodes, lo, hi);
        }
      } else if hi > 0 {
        assert nodes[0..hi] == [nodes[0]] + Matching(node, rest) by {
          MatchingOfRun(node, rest, 0, hi - 1);
          TailSlice(nodes, 1, hi);
          assert nodes[0..hi] == [nodes[0]] + nodes[1..hi];
        }
      } else {
        MatchingOfRun(node, rest, 0, 0);
      }
    }
  }

  /** A slice of a list's tail is the slice one position further on. */
  lemma TailSlice(nodes: seq<ENode>, lo: nat, hi: nat)
    requires 1 <= lo <= hi <= |nodes|
    ensures nodes[1..][lo - 1..hi - 1] == nodes[lo..hi]
  {
    forall k | 0 <= k < hi - lo ensures nodes[1..][lo - 1..hi - 1][k] == nodes[lo..hi][k] {
      assert nodes[1..][lo - 1 + k] == nodes[lo + k];
    }
  }

  /** A run of matching nodes, seen from the list's tail: it moves down by
      one position, and loses the head when the head was in it. */
  lemma RestRun(node: ENode, nodes: seq<ENode>, lo: nat, hi: nat)
    requires 0 < |nodes| && lo <= hi <= |nodes|
    requires forall k :: 0 <= k < |nodes| ==> (lo <= k < hi <==> Matches(node, nodes[k]))
    ensures var lo', hi' := if lo > 0 then lo - 1 else 0, if hi > 0 then hi - 1 else 0;
            forall k :: 0 <= k < |nodes| - 1 ==> (lo' <= k < hi' <==> Matches(node, nodes[1..][k]))
  {
    forall k | 0 <= k < |nodes| - 1
      ensures (if lo > 0 then lo - 1 else 0) <= k < (if hi > 0 then hi - 1 else 0) <==> Matches(node, nodes[1..][k])
    {
      assert nodes[1..][k] == nodes[k + 1];
    }
  }

  /** In a sorted list the nodes matching a template form one block. */
  lemma SortedIsContiguous(node: ENode, nodes: seq<ENode>, i: nat, j: nat, k: nat)
    requires Sorted(nodes) && i < j < k < |nodes|
    requires Matches(node, nodes[i]) && Matches(node, nodes[k])
    ensures Matches(node, nodes[j])
  {
    assert Less(nodes[i], nodes[j]) && Less(nodes[j], nodes[k]);
  }

  /** On a sorted list the linear scan finds every matching node and nothing else. */
  lemma LinearRangeExact(node: ENode, nodes: seq<ENode>)
    requires Sorted(nodes)
    ensures var r := LinearRange(node, nodes); nodes[r.0..r.1] == Matching(node, nodes)
  {
    var r := LinearRange(node, nodes);
    forall k | 0 <= k < |nodes| ensures r.0 <= k < r.1 <==> Matches(node, nodes[k]) {
      if Matches(node, nodes[k]) && r.1 < k {
        SortedIsContiguous(node, nodes, r.0, r.1, k);
      }
    }
    MatchingOfRun(node, nodes, r.0, r.1);
  }

  /** On a sorted list of real nodes the binary search finds every matching
      node and nothing else. */
  lemma SortedRangeExact(node: ENode, nodes: seq<ENode>)
    requires Sorted(nodes) && ChildrenBelow(nodes, IdMax)
    requires MapChildren(node, IdMax) !in nodes
    ensures var r := SortedRange(node, nodes); nodes[r.0..r.1] == Matching(node, nodes)
  {
    var r := SortedRange(node, nodes);
    forall k | 0 <= k < |nodes| ensures r.0 <= k < r.1 <==> Matches(node, nodes[k]) {
      SentinelsBracket(node, nodes[k]);
    }
    MatchingOfRun(node, nodes, r.0, r.1);
  }

  /** Both strategies return the same nodes on the same sorted list. */
  lemma StrategiesAgree(node: ENode, nodes: seq<ENode>)
    requires Sorted(nodes) && ChildrenBelow(nodes, IdMax)
    requires MapChildren(node, IdMax) !in nodes
    ensures var lin, bin := LinearRange(node, nodes), SortedRange(node, nodes);
            nodes[lin.0..lin.1] == nodes[bin.0..bin.1]
  {
    LinearRangeExact(node, nodes);
    SortedRangeExact(node, nodes);
  }

  /** `EClassSearcher::new`: picks the strategy by the list's length. Every node
      it hands out comes from the list; on a short list each matches the
      template; on a sorted list of real nodes they are exactly the matching
      ones, in order. */
  function NewSearcher(node: ENode, nodes: seq<ENode>): (r: EClassSearcher)
    requires |nodes| >= LinearLimit ==> MapChildren(node, IdMax) !in nodes
    ensures r.node == node
    ensures |r.nodes| <= |nodes| && forall n :: n in r.nodes ==> n in nodes
    ensures |nodes| < LinearLimit ==> r.Valid()
    ensures Sorted(nodes) && ChildrenBelow(nodes, IdMax) ==> r.nodes == Matching(node, nodes) && r.Valid()
  {
    var range := if |nodes| < LinearLimit then LinearRange(node, nodes) else SortedRange(node, nodes);
    var r := EClassSearcher(node, nodes[range.0..range.1]);
    assert forall n :: n in r.nodes ==> n in nodes by {
      forall n | n in r.nodes ensures n in nodes {
        var k :| 0 <= k < |r.nodes| && r.nodes[k] == n;
        assert n == nodes[range.0 + k];
      }
    }
    assert Sorted(nodes) && ChildrenBelow(nodes, IdMax) ==> r.nodes == Matching(node, nodes) by {
      if Sorted(nodes) && ChildrenBelow(nodes, IdMax) {
        if |nodes| < LinearLimit {
          LinearRangeExact(node, nodes);
        } else {
          SortedRangeExact(node, nodes);
        }
      }
    }
    r
  }
}
