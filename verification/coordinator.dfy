/** Rank 0 of the MPI program (MPI_BFC_dotNET/Program.cs:122-173): validate the
    parameters, build the tree, send one fixed subtree to every worker rank, and
    gather the traversed subtrees back in ascending rank order. The message passing is
    modelled as value transfer: a worker receives a copy of its subtree, runs
    VisiteDeep(true) on it (MPI_BFC_dotNET/Program.cs:175-181) and sends the copy back. */
module Coordinator {
  import opened NodeTree
  import opened Generate
  import opened Visit

  /** The vertex count must be greater than this. */
  const MinVertexCount := 30

  /** The name of the root `new NodeTree("main")`. Counter values start at 2, so the
      root's name differs from every label below it. */
  const MainName := 1

  predicate SupportedSize(size: int)
  {
    size == 2 || size == 3 || size == 5 || size == 9
  }

  predicate ValidParams(countOfVertex: int, size: int)
  {
    countOfVertex > MinVertexCount && SupportedSize(size)
  }

  /** The subtree roots of the `switch (comm.Size)`, as paths from the root: rank `j`
      receives entry `j - 1`. */
  function PartitionPaths(size: int): (r: seq<Path>)
    requires SupportedSize(size)
    ensures |r| == size - 1
    ensures forall m :: 0 <= m < |r| ==>
      |r[m]| == PartitionDepth(size) && forall i :: 0 <= i < |r[m]| ==> r[m][i] <= 1
  {
    if size == 2 then [[]]
    else if size == 3 then [[0], [1]]
    else if size == 5 then [[0, 0], [0, 1], [1, 0], [1, 1]]
    else [[0, 0, 0], [0, 0, 1], [0, 1, 0], [0, 1, 1], [1, 0, 0], [1, 0, 1], [1, 1, 0], [1, 1, 1]]
  }

  /** The depth at which the partition cuts the tree. */
  function PartitionDepth(size: int): nat
    requires SupportedSize(size)
  {
    if size == 2 then 0 else if size == 3 then 1 else if size == 5 then 2 else 3
  }

  /** The table lists, for `size - 1 == 2^d` workers, the whole level `d` of the tree
      from left to right. */
  lemma PartitionIsLevel(size: int)
    requires SupportedSize(size)
    ensures |PartitionPaths(size)| == size - 1 == Pow2(PartitionDepth(size))
    ensures forall m :: 0 <= m < size - 1 ==> PartitionPaths(size)[m] == LeafPath(PartitionDepth(size), m)
  {
    var d := PartitionDepth(size);
    assert Pow2(0) == 1 && Pow2(1) == 2 && Pow2(2) == 4 && Pow2(3) == 8;
    forall m | 0 <= m < size - 1 ensures PartitionPaths(size)[m] == LeafPath(d, m) {
      if d == 1 {
        assert LeafPath(0, 0) == [];
      } else if d == 2 {
        assert LeafPath(1, 0) == [0] && LeafPath(1, 1) == [1];
      } else if d == 3 {
        assert LeafPath(1, 0) == [0] && LeafPath(1, 1) == [1];
        assert LeafPath(2, 0) == [0, 0] && LeafPath(2, 1) == [0, 1];
        assert LeafPath(2, 2) == [1, 0] && LeafPath(2, 3) == [1, 1];
      }
    }
  }

  lemma {:induction false} BinaryPrefix(p: Path, l: nat)
    requires Binary(p) && l <= |p|
    ensures Binary(p[..l])
    decreases l
  {
    if l > 0 {
      BinaryPrefix(p[1..], l - 1);
      assert p[..l][1..] == p[1..][..l - 1];
    }
  }

  /** The subtrees are disjoint and, with the nodes above the partition depth, cover
      the tree: every node at or below that depth lies in the subtree of exactly one
      rank, the one whose path is the first `d` steps of its own path. */
  lemma PartitionCovers(size: int, q: Path)
    requires SupportedSize(size) && Binary(q) && |q| >= PartitionDepth(size)
    ensures var d := PartitionDepth(size);
      && Binary(q[..d])
      && Position(q[..d]) < size - 1 && PartitionPaths(size)[Position(q[..d])] == q[..d]
      && forall m :: 0 <= m < size - 1 && PartitionPaths(size)[m] == q[..d] ==> m == Position(q[..d])
  {
    var d := PartitionDepth(size);
    BinaryPrefix(q, d);
    PartitionIsLevel(size);
    forall m | 0 <= m < size - 1 && PartitionPaths(size)[m] == q[..d] ensures m == Position(q[..d]) {
      LeafPathInjective(d, m, Position(q[..d]));
    }
  }

  /** `CV > 30` makes the generator build at least four full levels, so every path in
      the table, three steps at most, exists in the tree. */
  lemma DeepEnough(countOfVertex: int)
    requires countOfVertex > MinVertexCount
    ensures Levels(1, countOfVertex) >= 4
  {
    var h := Levels(1, countOfVertex);
    assert Pow2(4) == 16;
    if h < 4 {
      Pow2Monotonic(h + 1, 4);
    }
  }

  /** The tree rank 0 builds: `new NodeTree("main").GenerateTree(CV)`. */
  function Graph(countOfVertex: int): (r: Node)
    ensures r.name == MainName && !r.visited
    ensures Size(r) == Pow2(Levels(1, countOfVertex) + 1) - 1
  {
    var t := Node(MainName, Heap(1, Levels(1, countOfVertex)).children, false);
    GrownSize(t, Levels(1, countOfVertex));
    t
  }

  /** The subtree rank `j` receives has the `(j-1)`-th label of level `d` at its root,
      `2^d + j - 1`, and it is a perfect tree of the remaining height. */
  lemma PartitionSubtrees(countOfVertex: int, size: int, m: nat)
    requires ValidParams(countOfVertex, size) && m < size - 1
    ensures var d := PartitionDepth(size);
      var p := PartitionPaths(size)[m];
      && ValidPath(Graph(countOfVertex), p)
      && NodeAt(Graph(countOfVertex), p).name == Pow2(d) + m
      && IsGrownBelow(NodeAt(Graph(countOfVertex), p), Levels(1, countOfVertex) - d)
  {
    var d := PartitionDepth(size);
    var p := PartitionPaths(size)[m];
    var g := Graph(countOfVertex);
    var h := Levels(1, countOfVertex);
    DeepEnough(countOfVertex);
    PartitionIsLevel(size);
    GrownPaths(g, h, p);
    if d > 0 {
      GrownLabel(g, h, p);
      LeafPathInjective(d, Position(p), m);
      SameChildrenAt(g, Heap(1, h), p);
      HeapAt(1, h, p);
      IndexOfLeafPath(1, d, m);
    } else {
      assert p == [] && m == 0;
      assert Heap(1, h) == Node(1, Heap(1, h).children, false);
    }
  }

  /** A subtree that is a perfect tree of height `h` under its own root label. */
  predicate IsGrownBelow(n: Node, h: nat)
  {
    n == Heap(n.name, h)
  }

  /** What a worker rank does with the subtree it receives. */
  method Worker(subtree: Node) returns (result: Node)
    ensures SameShape(result, subtree) && AllVisited(result, true)
  {
    result := VisiteDeep(subtree, true);
  }

  datatype RankZeroResult = Aborted | Gathered(results: seq<(int, Node)>)

  /** Every path of the table exists in the tree rank 0 builds. */
  lemma PartitionExists(countOfVertex: int, size: int)
    requires ValidParams(countOfVertex, size)
    ensures |PartitionPaths(size)| == size - 1
    ensures forall m :: 0 <= m < size - 1 ==> ValidPath(Graph(countOfVertex), PartitionPaths(size)[m])
  {
    PartitionIsLevel(size);
    forall m | 0 <= m < size - 1 ensures ValidPath(Graph(countOfVertex), PartitionPaths(size)[m]) {
      PartitionSubtrees(countOfVertex, size, m);
    }
  }

  /** Rank 0: abort unless `CV > 30` and the number of processes is 2, 3, 5 or 9;
      otherwise build the tree, hand the `j`-th subtree of the table to rank `j`, and
      receive from ranks `1 .. Size-1` in that order. */
  method RankZero(countOfVertex: int, size: int) returns (r: RankZeroResult)
    ensures r.Aborted? <==> !ValidParams(countOfVertex, size)
    ensures r.Gathered? ==>
      && |r.results| == size - 1
      && forall j :: 0 <= j < size - 1 ==>
        && r.results[j].0 == j + 1
        && ValidPath(Graph(countOfVertex), PartitionPaths(size)[j])
        && SameShape(r.results[j].1, NodeAt(Graph(countOfVertex), PartitionPaths(size)[j]))
        && AllVisited(r.results[j].1, true)
  {
    if !(countOfVertex > MinVertexCount && SupportedSize(size)) {
      return Aborted;
    }
    var graph := GenerateTreeMpi(NewNode(MainName), countOfVertex);
    assert graph == Graph(countOfVertex);
    var paths := PartitionPaths(size);
    PartitionExists(countOfVertex, size);
    var sent := seq(|paths|, m requires 0 <= m < |paths| => NodeAt(graph, paths[m]));
    var results: seq<(int, Node)> := [];
    for proc := 1 to size
      invariant |results| == proc - 1
      invariant forall j :: 0 <= j < proc - 1 ==>
        results[j].0 == j + 1 && SameShape(results[j].1, sent[j]) && AllVisited(results[j].1, true)
    {
      var node := Worker(sent[proc - 1]);
      results := results + [(proc, node)];
    }
    r := Gathered(results);
  }
}
