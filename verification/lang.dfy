/** E-nodes of the language the pattern machine works over: an operator applied
    to a list of e-class ids, together with the total order that the e-graph
    keeps every e-class's node list sorted by. */
module Lang {

  datatype Option<T> = None | Some(value: T)

  /** E-class ids. Ids are unbounded here; `IdMax` plays the part of `Id::MAX`. */
  type Id = nat

  /** Operators are opaque codes; two nodes have the same shape when their
      operators and arities agree. */
  type Op = nat

  /** The largest id; no e-class of a valid e-graph uses it. */
  const IdMax: Id := 0xFFFF_FFFF

  datatype ENode = ENode(op: Op, children: seq<Id>)

  /** Same operator and same arity; the children are ignored. */
  predicate Matches(a: ENode, b: ENode) {
    a.op == b.op && |a.children| == |b.children|
  }

  predicate IsLeaf(n: ENode) {
    |n.children| == 0
  }

  /** `map_children(|_| id)`: the node with every child replaced by `id`. */
  function MapChildren(n: ENode, id: Id): (r: ENode)
    ensures Matches(n, r) && Matches(r, n)
    ensures forall k :: 0 <= k < |r.children| ==> r.children[k] == id
  {
    ENode(n.op, seq(|n.children|, _ => id))
  }

  /** Lexicographic order on child lists (a proper prefix is smaller). */
  predicate IdsLess(a: seq<Id>, b: seq<Id>)
    decreases |a|
  {
    if |a| == 0 then |b| > 0
    else |b| > 0 && (a[0] < b[0] || (a[0] == b[0] && IdsLess(a[1..], b[1..])))
  }

  /** The node order: operator first, then arity, then the children. */
  predicate Less(a: ENode, b: ENode) {
    a.op < b.op ||
    (a.op == b.op &&
      (|a.children| < |b.children| ||
       (|a.children| == |b.children| && IdsLess(a.children, b.children))))
  }

  /** Strictly increasing: sorted and free of duplicates, as an e-class's node list is. */
  predicate Sorted(nodes: seq<ENode>) {
    forall i, j :: 0 <= i < j < |nodes| ==> Less(nodes[i], nodes[j])
  }

  /** Every child id of every node is below `bound`. */
  predicate ChildrenBelow(nodes: seq<ENode>, bound: nat) {
    forall n, c :: n in nodes && c in n.children ==> c < bound
  }

  lemma {:induction false} IdsLessIrreflexive(a: seq<Id>)
    ensures !IdsLess(a, a)
    decreases |a|
  {
    if |a| > 0 {
      IdsLessIrreflexive(a[1..]);
    }
  }

  lemma {:induction false} IdsLessTransitive(a: seq<Id>, b: seq<Id>, c: seq<Id>)
    requires IdsLess(a, b) && IdsLess(b, c)
    ensures IdsLess(a, c)
    decreases |a|
  {
    if |a| > 0 && a[0] == b[0] && b[0] == c[0] {
      IdsLessTransitive(a[1..], b[1..], c[1..]);
    }
  }

  lemma {:induction false} IdsLessTotal(a: seq<Id>, b: seq<Id>)
    requires a != b
    ensures IdsLess(a, b) || IdsLess(b, a)
    decreases |a|
  {
    if |a| > 0 && |b| > 0 && a[0] == b[0] {
      assert a == [a[0]] + a[1..] && b == [b[0]] + b[1..];
      IdsLessTotal(a[1..], b[1..]);
    }
  }

  lemma LessIrreflexive(a: ENode)
    ensures !Less(a, a)
  {
    IdsLessIrreflexive(a.children);
  }

  lemma LessTransitive(a: ENode, b: ENode, c: ENode)
    requires Less(a, b) && Less(b, c)
    ensures Less(a, c)
  {
    if a.op == b.op == c.op && |a.children| == |b.children| == |c.children| {
      IdsLessTransitive(a.children, b.children, c.children);
    }
  }

  lemma LessAsymmetric(a: ENode, b: ENode)
    requires Less(a, b)
    ensures !Less(b, a)
  {
    if Less(b, a) {
      LessTransitive(a, b, a);
      LessIrreflexive(a);
    }
  }

  lemma LessTotal(a: ENode, b: ENode)
    requires a != b
    ensures Less(a, b) || Less(b, a)
  {
    if a.op == b.op && |a.children| == |b.children| {
      IdsLessTotal(a.children, b.children);
    }
  }

  /** No child list of the same length lies below the all-zero one. */
  lemma {:induction false} ZerosAreLeast(a: seq<Id>, z: seq<Id>)
    requires |a| == |z|
    requires forall k :: 0 <= k < |z| ==> z[k] == 0
    ensures !IdsLess(a, z)
    decreases |a|
  {
    if |a| > 0 {
      ZerosAreLeast(a[1..], z[1..]);
    }
  }

  /** The two sentinels built from a template bracket exactly the nodes that
      match it, among nodes whose children are real ids (below `IdMax`) and
      that are not the upper sentinel itself. */
  lemma SentinelsBracket(template: ENode, n: ENode)
    requires forall c :: c in n.children ==> c < IdMax
    requires n != MapChildren(template, IdMax)
    ensures (!Less(n, MapChildren(template, 0)) && Less(n, MapChildren(template, IdMax)))
            <==> Matches(template, n)
  {
    var zero, big := MapChildren(template, 0), MapChildren(template, IdMax);
    if Matches(template, n) {
      ZerosAreLeast(n.children, zero.children);
      if |n.children| > 0 {
        assert n.children[0] in n.children;
        assert n.children[0] < big.children[0];
      }
    }
  }
}
