/** The traversals that set the `Visited` flag on a whole subtree: `VisiteDeep`
    (MPI_BFC_dotNET/Program.cs:92-100, and the identical Parallel_BFS_dotNET/Program.cs:105-115)
    and the fan-out variant `VisiteDeepP` (Parallel_BFS_dotNET/Program.cs:92-103). */
module Visit {
  import opened NodeTree

  /** The subtree with every flag set to `flag` and nothing else changed. */
  function SetVisited(n: Node, flag: bool): (r: Node)
    ensures Header(r) == Header(n).(visited := flag)
    decreases n
  {
    Node(n.name, seq(|n.children|, j requires 0 <= j < |n.children| => SetVisited(n.children[j], flag)), flag)
  }

  /** Every node of the subtree has `visited == flag`. */
  predicate AllVisited(n: Node, flag: bool)
    decreases n
  {
    n.visited == flag && forall j :: 0 <= j < |n.children| ==> AllVisited(n.children[j], flag)
  }

  /** The two trees have the same names and the same children lists, flags aside. */
  predicate SameShape(a: Node, b: Node)
    decreases a
  {
    && a.name == b.name && |a.children| == |b.children|
    && forall j :: 0 <= j < |a.children| ==> SameShape(a.children[j], b.children[j])
  }

  /** SetVisited changes the flags, all of them, and nothing else. */
  lemma {:induction false} SetVisitedSpec(n: Node, flag: bool)
    ensures SameShape(SetVisited(n, flag), n) && AllVisited(SetVisited(n, flag), flag)
    decreases n
  {
    forall j | 0 <= j < |n.children|
      ensures SameShape(SetVisited(n.children[j], flag), n.children[j])
      ensures AllVisited(SetVisited(n.children[j], flag), flag)
    {
      SetVisitedSpec(n.children[j], flag);
    }
  }

  /** Those two properties determine the result: any tree of the same shape whose
      flags are all `flag` is SetVisited. */
  lemma {:induction false} SetVisitedUnique(n: Node, r: Node, flag: bool)
    requires SameShape(r, n) && AllVisited(r, flag)
    ensures r == SetVisited(n, flag)
    decreases n
  {
    forall j | 0 <= j < |n.children| ensures r.children[j] == SetVisited(n.children[j], flag) {
      SetVisitedUnique(n.children[j], r.children[j], flag);
    }
  }

  /** On a subtree whose flags already all equal `flag`, the traversal changes
      nothing; in particular running it twice is the same as running it once. */
  lemma VisitIdempotent(n: Node, flag: bool)
    ensures AllVisited(n, flag) ==> SetVisited(n, flag) == n
    ensures SetVisited(SetVisited(n, flag), flag) == SetVisited(n, flag)
  {
    if AllVisited(n, flag) {
      SameShapeReflexive(n);
      SetVisitedUnique(n, n, flag);
    }
    SetVisitedSpec(n, flag);
    var once := SetVisited(n, flag);
    SameShapeReflexive(once);
    SetVisitedUnique(once, once, flag);
  }

  lemma {:induction false} SameShapeReflexive(n: Node)
    ensures SameShape(n, n)
    decreases n
  {
    forall j | 0 <= j < |n.children| ensures SameShape(n.children[j], n.children[j]) {
      SameShapeReflexive(n.children[j]);
    }
  }

  /** A leaf's flag set directly, as both traversals do for a child without children. */
  lemma SetVisitedLeaf(n: Node, flag: bool)
    requires |n.children| == 0
    ensures SetVisited(n, flag) == Node(n.name, n.children, flag)
  {
  }

  /** `n.VisiteDeep(flag)`: set the node's flag, then for each child either recurse or,
      for a leaf, set its flag directly. */
  method VisiteDeep(n: Node, flag: bool) returns (r: Node)
    ensures SameShape(r, n) && AllVisited(r, flag)
    ensures r == SetVisited(n, flag)
    decreases n
  {
    var children: seq<Node> := [];
    for k := 0 to |n.children|
      invariant |children| == k
      invariant forall j :: 0 <= j < k ==> children[j] == SetVisited(n.children[j], flag)
    {
      var node := n.children[k];
      if |node.children| > 0 {
        var done := VisiteDeep(node, flag);
        children := children + [done];
      } else {
        SetVisitedLeaf(node, flag);
        children := children + [Node(node.name, node.children, flag)];
      }
    }
    r := Node(n.name, children, flag);
    SetVisitedSpec(n, flag);
  }

  /** `n.VisiteDeepP(flag)`: set the node's flag, then handle every child as its own
      task: VisiteDeep on a child with children, the leaf shortcut otherwise. The
      tasks work on disjoint subtrees and are all joined before the call returns, so
      they are modelled as a loop over the children; the result is the one VisiteDeep
      produces. */
  method VisiteDeepP(n: Node, flag: bool) returns (r: Node)
    ensures SameShape(r, n) && AllVisited(r, flag)
    ensures r == SetVisited(n, flag)
  {
    var children: seq<Node> := [];
    for k := 0 to |n.children|
      invariant |children| == k
      invariant forall j :: 0 <= j < k ==> children[j] == SetVisited(n.children[j], flag)
    {
      var node := n.children[k];
      if |node.children| > 0 {
        var done := VisiteDeep(node, flag);
        children := children + [done];
      } else {
        SetVisitedLeaf(node, flag);
        children := children + [Node(node.name, node.children, flag)];
      }
    }
    r := Node(n.name, children, flag);
    SetVisitedSpec(n, flag);
  }
}
