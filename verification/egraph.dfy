/** The part of the e-graph that the pattern machine reads: the union-find
    (`find`) and, per canonical id, the e-class's sorted node list. The machine
    never writes to it, so it is a value here. */
module EGraphs {
  import opened Lang

  /** `canon[id]` is `find(id)`; `classes[c]` is the node list of the class
      whose canonical id is `c` (entries at non-canonical ids are never read). */
  datatype EGraph = EGraph(canon: seq<Id>, classes: seq<seq<ENode>>) {

    /** What the e-graph maintains and the machine relies on: `find` is an
        idempotent map into the ids, every child is a valid id (so below
        `IdMax`), and every node list is sorted by the node order. */
    predicate Valid() {
      |classes| == |canon| && |canon| <= IdMax &&
      (forall id :: 0 <= id < |canon| ==> canon[id] < |canon| && canon[canon[id]] == canon[id]) &&
      (forall c :: 0 <= c < |classes| ==> Sorted(classes[c])) &&
      (forall c :: 0 <= c < |classes| ==> ChildrenBelow(classes[c], |canon|))
    }

    /** `egraph.find(id)`: the canonical id of `id`'s class. */
    function Find(id: Id): (r: Id)
      requires Valid() && id < |canon|
      ensures r < |canon| && canon[r] == r
    {
      canon[id]
    }

    /** `egraph[id].nodes`: indexing resolves the id through `find` first. */
    function Nodes(id: Id): (r: seq<ENode>)
      requires Valid() && id < |canon|
      ensures Sorted(r) && ChildrenBelow(r, |canon|) && ChildrenBelow(r, IdMax)
      ensures |r| <= MaxClassSize()
    {
      classes[canon[id]]
    }

    /** The length of the longest node list. */
    function MaxClassSize(): (m: nat)
      ensures forall c :: 0 <= c < |classes| ==> |classes[c]| <= m
    {
      LongestOf(classes)
    }
  }

  function LongestOf(lists: seq<seq<ENode>>): (m: nat)
    ensures forall c :: 0 <= c < |lists| ==> |lists[c]| <= m
    ensures |lists| > 0 ==> exists c :: 0 <= c < |lists| && |lists[c]| == m
  {
    if |lists| == 0 then 0
    else
      var rest := LongestOf(lists[1..]);
      assert forall c :: 1 <= c < |lists| ==> lists[c] == lists[1..][c - 1];
      if |lists[0]| >= rest then |lists[0]| else rest
  }
}
