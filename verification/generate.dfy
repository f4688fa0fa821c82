/** The tree generator `GenerateTree` of the two programs (MPI_BFC_dotNET/Program.cs:48-68,
    Parallel_BFS_dotNET/Program.cs:45-67) and the shape of what it builds.

    Started on a root without children, the generator builds the perfect binary tree
    whose labels are heap numbers: the root counts as 1 and the children of the node
    labelled m are labelled 2m and 2m+1. `Heap(1, h)` below is that tree of height h. */
module Generate {
  import opened NodeTree

  function Pow2(n: nat): nat
  {
    if n == 0 then 1 else 2 * Pow2(n - 1)
  }

  lemma {:induction false} Pow2Positive(n: nat)
    ensures Pow2(n) >= 1
  {
    if n > 0 {
      Pow2Positive(n - 1);
    }
  }

  lemma {:induction false} Pow2Monotonic(a: nat, b: nat)
    requires a <= b
    ensures Pow2(a) <= Pow2(b)
    decreases b - a
  {
    if a < b {
      Pow2Monotonic(a, b - 1);
      Pow2Positive(b - 1);
    }
  }

  /** The perfect binary tree of height `h` with root label `k`, heap-numbered below. */
  function Heap(k: int, h: nat): Node
    decreases h
  {
    if h == 0 then NewNode(k)
    else Node(k, [Heap(2 * k, h - 1), Heap(2 * k + 1, h - 1)], false)
  }

  /** The tree after `h` full levels: its children are those of `Heap(1, h)`
      (the root keeps its own name and flag). */
  predicate IsGrown(t: Node, h: nat)
  {
    t.children == Heap(1, h).children
  }

  /** Every step of the path picks child 0 or child 1. */
  predicate Binary(p: Path)
    decreases |p|
  {
    |p| == 0 || (p[0] <= 1 && Binary(p[1..]))
  }

  /** The heap number reached from label `k` along `p`. */
  function Index(k: int, p: Path): int
    decreases |p|
  {
    if |p| == 0 then k else Index(2 * k + p[0], p[1..])
  }

  /** The path to the `m`-th node, from the left, at depth `h` of a perfect tree. */
  function LeafPath(h: nat, m: nat): (p: Path)
    requires m < Pow2(h)
    ensures |p| == h && Binary(p)
    decreases h
  {
    if h == 0 then []
    else if m < Pow2(h - 1) then [0] + LeafPath(h - 1, m)
    else [1] + LeafPath(h - 1, m - Pow2(h - 1))
  }

  /** The rank, from the left, of the node at the end of a binary path among the
      nodes of its depth; the inverse of LeafPath. */
  function Position(p: Path): (m: nat)
    requires Binary(p)
    ensures m < Pow2(|p|) && LeafPath(|p|, m) == p
    decreases |p|
  {
    if |p| == 0 then 0
    else
      var rest := Position(p[1..]);
      assert p == [p[0]] + p[1..];
      (if p[0] == 0 then 0 else Pow2(|p| - 1)) + rest
  }

  lemma {:induction false} LeafPathInjective(h: nat, m: nat, n: nat)
    requires m < Pow2(h) && n < Pow2(h) && LeafPath(h, m) == LeafPath(h, n)
    ensures m == n
    decreases h
  {
    if h > 0 {
      var half := Pow2(h - 1);
      var pm, pn := LeafPath(h, m), LeafPath(h, n);
      assert pm[0] == pn[0] && pm[1..] == pn[1..];
      if m < half && n < half {
        LeafPathInjective(h - 1, m, n);
      } else if m >= half && n >= half {
        LeafPathInjective(h - 1, m - half, n - half);
      }
    }
  }

  lemma {:induction false} IndexOfLeafPath(k: int, h: nat, m: nat)
    requires m < Pow2(h)
    ensures Index(k, LeafPath(h, m)) == k * Pow2(h) + m
    decreases h
  {
    if h > 0 {
      var half := Pow2(h - 1);
      var p := LeafPath(h, m);
      assert Pow2(h) == 2 * half;
      assert k * Pow2(h) == k * (2 * half);
      MulShift(k, half);
      if m < half {
        assert p == [0] + LeafPath(h - 1, m);
        assert Index(k, p) == Index(2 * k, LeafPath(h - 1, m));
        IndexOfLeafPath(2 * k, h - 1, m);
      } else {
        assert p == [1] + LeafPath(h - 1, m - half);
        assert Index(k, p) == Index(2 * k + 1, LeafPath(h - 1, m - half));
        IndexOfLeafPath(2 * k + 1, h - 1, m - half);
      }
    }
  }

  /** Which paths exist in `Heap(k, h)` and what they lead to. */
  lemma {:induction false} HeapAt(k: int, h: nat, p: Path)
    ensures ValidPath(Heap(k, h), p) <==> |p| <= h && Binary(p)
    ensures ValidPath(Heap(k, h), p) ==> NodeAt(Heap(k, h), p) == Heap(Index(k, p), h - |p|)
    decreases |p|
  {
    if |p| > 0 && h > 0 && p[0] <= 1 {
      HeapAt(2 * k + p[0], h - 1, p[1..]);
    }
  }

  lemma {:induction false} HeapSize(k: int, h: nat)
    ensures Size(Heap(k, h)) == Pow2(h + 1) - 1
    decreases h
  {
    if h > 0 {
      HeapSize(2 * k, h - 1);
      HeapSize(2 * k + 1, h - 1);
      var t := Heap(k, h);
      assert SizeFrom(t, 2) == 0;
      assert SizeFrom(t, 1) == 1 + SizeFrom(Heap(2 * k + 1, h - 1), 0);
      assert SizeFrom(t, 0) == 1 + SizeFrom(Heap(2 * k, h - 1), 0) + SizeFrom(t, 1);
    }
  }

  // ---------------------------------------------------------------------------
  // One pass of the generator, node by node

  function Min(a: nat, b: nat): nat
  {
    if a <= b then a else b
  }

  /** `Heap(k, h + 1)` while a pass is under way: only the first `j` nodes of depth
      `h` have received their two children so far. */
  function Partial(k: int, h: nat, j: nat): Node
    decreases h
  {
    if h == 0 then Node(k, if j >= 1 then [NewNode(2 * k), NewNode(2 * k + 1)] else [], false)
    else
      var half := Pow2(h - 1);
      Node(k, [Partial(2 * k, h - 1, Min(j, half)), Partial(2 * k + 1, h - 1, if j >= half then j - half else 0)], false)
  }

  lemma {:induction false} PartialNone(k: int, h: nat)
    ensures Partial(k, h, 0) == Heap(k, h)
    decreases h
  {
    if h > 0 {
      PartialNone(2 * k, h - 1);
      PartialNone(2 * k + 1, h - 1);
    }
  }

  lemma {:induction false} PartialAll(k: int, h: nat)
    ensures Partial(k, h, Pow2(h)) == Heap(k, h + 1)
    decreases h
  {
    if h > 0 {
      PartialAll(2 * k, h - 1);
      PartialAll(2 * k + 1, h - 1);
    }
  }

  /** The tree after one iteration of the inner `foreach`: the node at `item` has
      received `i + 1` and then `i + 2`. */
  function ExpandOne(t: Node, item: Path, i: int): Node
    requires ValidPath(t, item)
  {
    AddChildAtKeepsPath(t, item, NewNode(i + 1), item);
    AddChildAt(AddChildAt(t, item, NewNode(i + 1)), item, NewNode(i + 2))
  }

  /** Appending at `[b] + q` is appending at `q` inside child `b`. */
  lemma AddOneBelow(t: Node, b: nat, q: Path, c: Node)
    requires b < |t.children| && ValidPath(t.children[b], q)
    ensures ValidPath(t, [b] + q)
    ensures AddChildAt(t, [b] + q, c) == Node(t.name, t.children[b := AddChildAt(t.children[b], q, c)], t.visited)
  {
    var p := [b] + q;
    assert p[0] == b && p[1..] == q;
    ConsPath(t, b, q);
  }

  /** Expanding the node at `[b] + q` is expanding the node at `q` inside child `b`. */
  lemma AddTwoBelow(t: Node, b: nat, q: Path, i: int)
    requires b < |t.children| && ValidPath(t.children[b], q)
    ensures ValidPath(t, [b] + q)
    ensures ExpandOne(t, [b] + q, i) == Node(t.name, t.children[b := ExpandOne(t.children[b], q, i)], t.visited)
  {
    var c := t.children[b];
    AddOneBelow(t, b, q, NewNode(i + 1));
    var once := AddChildAt(t, [b] + q, NewNode(i + 1));
    AddChildAtKeepsPath(c, q, NewNode(i + 1), q);
    assert once.children[b] == AddChildAt(c, q, NewNode(i + 1));
    AddOneBelow(once, b, q, NewNode(i + 2));
    UpdateTwice(t.children, b, once.children[b], ExpandOne(c, q, i));
  }

  /** Writing the same index twice keeps only the second write. */
  lemma UpdateTwice<T>(s: seq<T>, b: nat, x: T, y: T)
    requires b < |s|
    ensures s[b := x][b := y] == s[b := y]
  {
  }

  lemma MulShift(k: int, half: nat)
    ensures (2 * k) * half == k * (2 * half)
    ensures (2 * k + 1) * half == k * (2 * half) + half
  {
  }

  /** Expanding the `j`-th node of depth `h` with the counter at
      `i == 2 * (k * 2^h + j) - 1`, so that its children are labelled `i + 1` and
      `i + 2`, moves the pass on by one node. */
  lemma {:induction false} ExpandStep(k: int, h: nat, j: nat, i: int)
    requires j < Pow2(h) && i == 2 * (k * Pow2(h) + j) - 1
    ensures ValidPath(Partial(k, h, j), LeafPath(h, j))
    ensures ExpandOne(Partial(k, h, j), LeafPath(h, j), i) == Partial(k, h, j + 1)
    decreases h
  {
    if h > 0 {
      var half := Pow2(h - 1);
      assert Pow2(h) == 2 * half;
      assert k * Pow2(h) == k * (2 * half);
      MulShift(k, half);
      if j < half {
        ExpandLeft(k, h, j, i);
      } else {
        ExpandRight(k, h, j, i);
      }
    } else {
      assert LeafPath(h, j) == [];
    }
  }

  lemma {:induction false} ExpandLeft(k: int, h: nat, j: nat, i: int)
    requires 0 < h && j < Pow2(h - 1) && i == 2 * ((2 * k) * Pow2(h - 1) + j) - 1
    ensures ValidPath(Partial(k, h, j), LeafPath(h, j))
    ensures ExpandOne(Partial(k, h, j), LeafPath(h, j), i) == Partial(k, h, j + 1)
    decreases h, 0
  {
    var t := Partial(k, h, j);
    var q := LeafPath(h - 1, j);
    ExpandStep(2 * k, h - 1, j, i);
    assert LeafPath(h, j) == [0] + q;
    AddTwoBelow(t, 0, q, i);
  }

  lemma {:induction false} ExpandRight(k: int, h: nat, j: nat, i: int)
    requires 0 < h && Pow2(h - 1) <= j < Pow2(h)
    requires i == 2 * ((2 * k + 1) * Pow2(h - 1) + (j - Pow2(h - 1))) - 1
    ensures ValidPath(Partial(k, h, j), LeafPath(h, j))
    ensures ExpandOne(Partial(k, h, j), LeafPath(h, j), i) == Partial(k, h, j + 1)
    decreases h, 0
  {
    var half := Pow2(h - 1);
    var t := Partial(k, h, j);
    var q := LeafPath(h - 1, j - half);
    ExpandStep(2 * k + 1, h - 1, j - half, i);
    assert LeafPath(h, j) == [1] + q;
    AddTwoBelow(t, 1, q, i);
  }

  function FrontierPart(t: Node, c: nat): seq<Path>
    requires c < |t.children|
  {
    if |t.children[c].children| >= DefaultMinChildren
    then Prefixed(c, FrontierFrom(t.children[c], 0, DefaultMinChildren))
    else [[c]]
  }

  lemma FrontierOfPair(t: Node)
    requires |t.children| == 2
    ensures DeepNextChildren(t, DefaultMinChildren) == FrontierPart(t, 0) + FrontierPart(t, 1)
  {
    assert FrontierFrom(t, 2, DefaultMinChildren) == [];
    assert FrontierFrom(t, 1, DefaultMinChildren) == FrontierPart(t, 1) + [];
  }

  /** The frontier of a tree grown `h >= 1` full levels is its deepest level, from
      left to right. */
  lemma {:induction false} FrontierOfGrown(t: Node, k: int, h: nat)
    requires 1 <= h && t.children == Heap(k, h).children
    ensures |DeepNextChildren(t, DefaultMinChildren)| == Pow2(h)
    ensures forall m :: 0 <= m < Pow2(h) ==> DeepNextChildren(t, DefaultMinChildren)[m] == LeafPath(h, m)
    decreases h, 1
  {
    var half := Pow2(h - 1);
    var f := DeepNextChildren(t, DefaultMinChildren);
    FrontierOfPair(t);
    var a, b := FrontierPart(t, 0), FrontierPart(t, 1);
    if h == 1 {
      assert a == [[0]] && b == [[1]];
      assert LeafPath(1, 0) == [0] + [] && LeafPath(1, 1) == [1] + [];
    } else {
      FrontierSideOfGrown(t, k, h, 0);
      FrontierSideOfGrown(t, k, h, 1);
      LevelOfHalves(a, b, h);
    }
  }

  /** Level `h` is level `h - 1` behind a step to the left, then behind a step to
      the right. */
  lemma LevelOfHalves(a: seq<Path>, b: seq<Path>, h: nat)
    requires h >= 1 && |a| == Pow2(h - 1) && |b| == Pow2(h - 1)
    requires forall m :: 0 <= m < Pow2(h - 1) ==> a[m] == [0] + LeafPath(h - 1, m)
    requires forall m :: 0 <= m < Pow2(h - 1) ==> b[m] == [1] + LeafPath(h - 1, m)
    ensures |a + b| == Pow2(h)
    ensures forall m :: 0 <= m < Pow2(h) ==> (a + b)[m] == LeafPath(h, m)
  {
    var half := Pow2(h - 1);
    assert Pow2(h) == 2 * half;
    forall m | 0 <= m < Pow2(h) ensures (a + b)[m] == LeafPath(h, m) {
      if m < half {
        assert (a + b)[m] == a[m];
        assert LeafPath(h, m) == [0] + LeafPath(h - 1, m);
      } else {
        var n := m - half;
        assert (a + b)[m] == b[n];
        assert LeafPath(h, m) == [1] + LeafPath(h - 1, n);
      }
    }
  }

  /** Each half of that frontier is the deepest level of one subtree, behind the
      step into that subtree. */
  lemma {:induction false} FrontierSideOfGrown(t: Node, k: int, h: nat, side: nat)
    requires 2 <= h && side <= 1 && t.children == Heap(k, h).children
    ensures |FrontierPart(t, side)| == Pow2(h - 1)
    ensures forall m :: 0 <= m < Pow2(h - 1) ==> FrontierPart(t, side)[m] == [side] + LeafPath(h - 1, m)
    decreases h, 0
  {
    var c := Heap(2 * k + side, h - 1);
    assert t.children[side] == c;
    FrontierOfGrown(c, 2 * k + side, h - 1);
    assert FrontierPart(t, side) == Prefixed(side, DeepNextChildren(c, DefaultMinChildren));
  }

  // ---------------------------------------------------------------------------
  // The generator

  /** The number of full levels the generator builds from `h` levels on before its
      counter, `2^(levels+1) - 1`, reaches `countOfVertex`. */
  function Levels(h: nat, countOfVertex: int): (r: nat)
    ensures r >= h && Pow2(r + 1) - 1 >= countOfVertex
    ensures r > h ==> Pow2(r) - 1 < countOfVertex
    decreases countOfVertex - Pow2(h + 1)
  {
    if Pow2(h + 1) - 1 >= countOfVertex then h
    else
      Pow2Positive(h + 1);
      Levels(h + 1, countOfVertex)
  }

  /** `r` has the root, the visited flag and the root's list (length and names) of `t`. */
  predicate SameRootList(t: Node, r: Node)
  {
    && r.name == t.name && r.visited == t.visited
    && |r.children| == |t.children|
    && forall j :: 0 <= j < |t.children| ==> r.children[j].name == t.children[j].name
  }

  /** One iteration of the inner `foreach`: `item` receives the children `i + 1` and
      `i + 2`. Every path stays valid, the tree grows by two nodes and the root's own
      list keeps its length and names. */
  lemma ExpandItem(t: Node, item: Path, i: int, others: seq<Path>)
    requires ValidPath(t, item) && |item| >= 1
    requires forall q :: q in others ==> ValidPath(t, q)
    ensures ValidPath(AddChildAt(t, item, NewNode(i + 1)), item)
    ensures Size(ExpandOne(t, item, i)) == Size(t) + 2
    ensures SameRootList(t, ExpandOne(t, item, i))
    ensures ValidPath(ExpandOne(t, item, i), item)
    ensures NodeAt(ExpandOne(t, item, i), item).children
      == NodeAt(t, item).children + [NewNode(i + 1), NewNode(i + 2)]
    ensures forall q :: q in others ==>
      ValidPath(ExpandOne(t, item, i), q)
  {
    var once := AddChildAt(t, item, NewNode(i + 1));
    AddChildAtKeepsPath(t, item, NewNode(i + 1), item);
    AddChildAtRootList(t, item, NewNode(i + 1));
    AddChildAtRootList(once, item, NewNode(i + 2));
    AddChildAtTarget(t, item, NewNode(i + 1));
    AddChildAtTarget(once, item, NewNode(i + 2));
    AddChildAtSize(t, item, NewNode(i + 1));
    AddChildAtSize(once, item, NewNode(i + 2));
    forall q | q in others ensures ValidPath(AddChildAt(once, item, NewNode(i + 2)), q) {
      AddChildAtKeepsPath(t, item, NewNode(i + 1), q);
      AddChildAtKeepsPath(once, item, NewNode(i + 2), q);
    }
  }

  /** In a pass over a tree of `h` full levels, the `k`-th iteration of the inner
      `foreach` expands the `k`-th node of the deepest level with its heap children. */
  lemma ExpandItemGrown(t: Node, h: nat, k: nat, i: int)
    requires 1 <= h && k < Pow2(h) && t.children == Partial(1, h, k).children
    requires i == Pow2(h + 1) - 1 + 2 * k
    ensures ValidPath(t, LeafPath(h, k))
    ensures ValidPath(AddChildAt(t, LeafPath(h, k), NewNode(i + 1)), LeafPath(h, k))
    ensures ExpandOne(t, LeafPath(h, k), i).children == Partial(1, h, k + 1).children
  {
    var p := LeafPath(h, k);
    ExpandStep(1, h, k, i);
    SameChildrenAt(t, Partial(1, h, k), p);
    AddChildAtKeepsPath(t, p, NewNode(i + 1), p);
    var once := AddChildAt(t, p, NewNode(i + 1));
    SameChildrenAt(once, AddChildAt(Partial(1, h, k), p, NewNode(i + 1)), p);
  }

  /** The inner `foreach (var item in Children)` of GenerateTree: every node of the
      snapshot `items`, in order, receives two new children labelled `++i`. */
  method ExpandEach(t0: Node, i0: int, items: seq<Path>, ghost h: nat) returns (t: Node, i: int)
    requires forall m :: 0 <= m < |items| ==> |items[m]| >= 1 && ValidPath(t0, items[m])
    ensures i == i0 + 2 * |items|
    ensures Size(t) == Size(t0) + 2 * |items|
    ensures t.name == t0.name && t.visited == t0.visited
    ensures |t.children| == |t0.children|
    ensures forall j :: 0 <= j < |t0.children| ==> t.children[j].name == t0.children[j].name
    ensures && 1 <= h && IsGrown(t0, h) && i0 == Pow2(h + 1) - 1
            && |items| == Pow2(h) && (forall m :: 0 <= m < Pow2(h) ==> items[m] == LeafPath(h, m))
            ==> IsGrown(t, h + 1) && i == Pow2(h + 2) - 1
  {
    ghost var perfect := && 1 <= h && IsGrown(t0, h) && i0 == Pow2(h + 1) - 1
                         && |items| == Pow2(h) && (forall m :: 0 <= m < Pow2(h) ==> items[m] == LeafPath(h, m));
    if perfect {
      PartialNone(1, h);
    }
    t, i := t0, i0;
    for k := 0 to |items|
      invariant forall m :: k <= m < |items| ==> ValidPath(t, items[m])
      invariant i == i0 + 2 * k
      invariant Size(t) == Size(t0) + 2 * k
      invariant t.name == t0.name && t.visited == t0.visited
      invariant |t.children| == |t0.children|
      invariant forall j :: 0 <= j < |t0.children| ==> t.children[j].name == t0.children[j].name
      invariant perfect ==> t.children == Partial(1, h, k).children
    {
      var item := items[k];
      ExpandItem(t, item, i, items[k + 1..]);
      if perfect {
        ExpandItemGrown(t, h, k, i);
      }
      i := i + 1;
      t := AddChildAt(t, item, NewNode(i));
      i := i + 1;
      t := AddChildAt(t, item, NewNode(i));
      forall m | k + 1 <= m < |items| ensures ValidPath(t, items[m]) {
        assert items[m] in items[k + 1..];
      }
    }
    if perfect {
      PartialAll(1, h);
    }
  }

  /** The `while (i < CountOfVertex)` loop of GenerateTree, shared verbatim by both
      programs: each pass snapshots the frontier, then expands every node of the
      snapshot. */
  method GrowLevels(t0: Node, i0: int, countOfVertex: int, ghost h0: nat) returns (t: Node, i: int)
    requires |t0.children| > 0
    ensures i >= countOfVertex && i >= i0
    ensures Size(t) == Size(t0) + (i - i0)
    ensures t.name == t0.name && t.visited == t0.visited
    ensures |t.children| == |t0.children|
    ensures forall j :: 0 <= j < |t0.children| ==> t.children[j].name == t0.children[j].name
    ensures IsGrown(t0, h0) && i0 == Pow2(h0 + 1) - 1 ==>
      IsGrown(t, Levels(h0, countOfVertex)) && i == Pow2(Levels(h0, countOfVertex) + 1) - 1
  {
    t, i := t0, i0;
    ghost var perfect := IsGrown(t0, h0) && i0 == Pow2(h0 + 1) - 1;
    ghost var h := h0;
    while i < countOfVertex
      invariant i >= i0 && Size(t) == Size(t0) + (i - i0)
      invariant t.name == t0.name && t.visited == t0.visited
      invariant |t.children| == |t0.children|
      invariant forall j :: 0 <= j < |t0.children| ==> t.children[j].name == t0.children[j].name
      invariant perfect ==> 1 <= h && IsGrown(t, h) && i == Pow2(h + 1) - 1
      invariant perfect ==> Levels(h, countOfVertex) == Levels(h0, countOfVertex)
      decreases countOfVertex - i
    {
      var currentNodes := DeepNextChildren(t, DefaultMinChildren);
      FrontierNonEmpty(t, 0, DefaultMinChildren);
      FrontierSound(t, 0);
      forall m | 0 <= m < |currentNodes| ensures |currentNodes[m]| >= 1 && ValidPath(t, currentNodes[m]) {
        assert currentNodes[m] in currentNodes;
      }
      if perfect {
        FrontierOfGrown(t, 1, h);
      }
      t, i := ExpandEach(t, i, currentNodes, h);
      if perfect {
        h := h + 1;
      }
    }
  }

  /** GenerateTree of the MPI program (MPI_BFC_dotNET/Program.cs:48-68). Its guard has
      no braces: on a root without children it adds "2" and "3"; on a root that already
      has children it adds the single child "2" and raises no error. The counter `i`
      ends equal to the number of nodes added plus one. */
  method GenerateTreeMpi(root: Node, countOfVertex: int) returns (t: Node)
    ensures t.name == root.name && t.visited == root.visited
    ensures root.children == [] ==>
      var h := Levels(1, countOfVertex);
      IsGrown(t, h) && Size(t) == Pow2(h + 1) - 1
    ensures root.children != [] ==>
      && |t.children| == |root.children| + 1
      && (forall j :: 0 <= j < |root.children| ==> t.children[j].name == root.children[j].name)
      && t.children[|root.children|].name == 2
      && Size(t) - Size(root) + 1 >= countOfVertex
  {
    t := root;
    var i := 1;
    if |t.children| == 0 {
      i := i + 1;
      SizeFromAppend(t, NewNode(i), 0);
      t := AddChildren(t, Some(NewNode(i)));
    }
    i := i + 1;
    SizeFromAppend(t, NewNode(i), 0);
    t := AddChildren(t, Some(NewNode(i)));
    ghost var h0: nat := if root.children == [] then 1 else 0;
    if root.children == [] {
      assert t.children == [NewNode(2), NewNode(3)] == Heap(1, 1).children;
    }
    ghost var mid := t;
    t, i := GrowLevels(t, i, countOfVertex, h0);
    if root.children != [] {
      assert mid.children[|root.children|] == NewNode(2);
    }
  }

  datatype Outcome = Built(tree: Node) | Thrown(message: string)

  /** GenerateTree of the task-parallel program (Parallel_BFS_dotNET/Program.cs:45-67):
      it throws when the root already has children; otherwise it builds the same tree
      as the MPI copy. */
  method GenerateTreeParallel(root: Node, countOfVertex: int) returns (r: Outcome)
    ensures r.Thrown? <==> root.children != []
    ensures r.Built? ==>
      var h := Levels(1, countOfVertex);
      && r.tree.name == root.name && r.tree.visited == root.visited
      && IsGrown(r.tree, h) && Size(r.tree) == Pow2(h + 1) - 1
  {
    var t := root;
    var i := 1;
    if |t.children| != 0 {
      return Thrown("There should be no children in the main node!");
    }
    i := i + 1;
    SizeFromAppend(t, NewNode(i), 0);
    t := AddChildren(t, Some(NewNode(i)));
    i := i + 1;
    SizeFromAppend(t, NewNode(i), 0);
    t := AddChildren(t, Some(NewNode(i)));
    assert t.children == [NewNode(2), NewNode(3)] == Heap(1, 1).children;
    t, i := GrowLevels(t, i, countOfVertex, 1);
    r := Built(t);
  }

  // ---------------------------------------------------------------------------
  // What the generated tree looks like

  /** The paths of a tree grown `h` levels are the binary paths of length at most `h`. */
  lemma GrownPaths(t: Node, h: nat, p: Path)
    requires IsGrown(t, h)
    ensures ValidPath(t, p) <==> |p| <= h && Binary(p)
  {
    if |p| > 0 {
      SameChildrenAt(t, Heap(1, h), p);
      HeapAt(1, h, p);
    }
  }

  /** Every node has 0 or 2 children, and the leaves are exactly the nodes at depth `h`:
      the tree is perfect. */
  lemma GrownShape(t: Node, h: nat, p: Path)
    requires IsGrown(t, h) && ValidPath(t, p)
    ensures |NodeAt(t, p).children| == 0 || |NodeAt(t, p).children| == 2
    ensures |NodeAt(t, p).children| == 0 <==> |p| == h
  {
    if |p| > 0 {
      SameChildrenAt(t, Heap(1, h), p);
      HeapAt(1, h, p);
      GrownPaths(t, h, p);
    }
  }

  /** A tree grown `h` levels has `2^(h+1) - 1` nodes. */
  lemma GrownSize(t: Node, h: nat)
    requires IsGrown(t, h)
    ensures Size(t) == Pow2(h + 1) - 1
  {
    HeapSize(1, h);
    SizeFromChildren(t, Heap(1, h), 0);
  }

  /** Labels are given level by level, left to right: the `m`-th node of depth `d`
      (counting from 0) is labelled `2^d + m`, so the labels lie in `2 .. 2^(h+1) - 1`. */
  lemma GrownLabel(t: Node, h: nat, p: Path)
    requires IsGrown(t, h) && ValidPath(t, p) && |p| >= 1
    ensures Binary(p) && NodeAt(t, p).name == Pow2(|p|) + Position(p)
    ensures 2 <= NodeAt(t, p).name <= Pow2(h + 1) - 1
  {
    SameChildrenAt(t, Heap(1, h), p);
    HeapAt(1, h, p);
    var m := Position(p);
    IndexOfLeafPath(1, |p|, m);
    assert NodeAt(t, p).name == Index(1, LeafPath(|p|, m)) == Pow2(|p|) + m;
    Pow2Monotonic(1, |p|);
    assert Pow2(|p| + 1) == 2 * Pow2(|p|);
    Pow2Monotonic(|p| + 1, h + 1);
  }

  /** No label is used twice. */
  lemma GrownLabelsUnique(t: Node, h: nat, p: Path, q: Path)
    requires IsGrown(t, h) && ValidPath(t, p) && ValidPath(t, q) && |p| >= 1 && |q| >= 1
    requires NodeAt(t, p).name == NodeAt(t, q).name
    ensures p == q
  {
    GrownLabel(t, h, p);
    GrownLabel(t, h, q);
    LevelNumbersDistinct(|p|, Position(p), |q|, Position(q));
  }

  /** `2^d + m` with `m < 2^d` determines `d` and `m`. */
  lemma LevelNumbersDistinct(d: nat, m: nat, e: nat, n: nat)
    requires m < Pow2(d) && n < Pow2(e) && Pow2(d) + m == Pow2(e) + n
    ensures d == e && m == n
  {
    if d < e {
      assert Pow2(d + 1) == 2 * Pow2(d);
      Pow2Monotonic(d + 1, e);
    } else if e < d {
      assert Pow2(e + 1) == 2 * Pow2(e);
      Pow2Monotonic(e + 1, d);
    }
  }

  /** Every label `2 .. 2^(h+1) - 1` is used, so the labels below the root are exactly
      the counter values `2 .. i`. */
  lemma GrownLabelUsed(t: Node, h: nat, n: int) returns (p: Path)
    requires IsGrown(t, h) && 2 <= n <= Pow2(h + 1) - 1
    ensures ValidPath(t, p) && |p| >= 1 && NodeAt(t, p).name == n
  {
    var d, m := LabelLevel(n, h);
    p := LeafPath(d, m);
    GrownPaths(t, h, p);
    GrownLabel(t, h, p);
    LeafPathInjective(d, Position(p), m);
  }

  /** Every label `2 .. 2^(h+1) - 1` is `2^d + m` for a depth `1 <= d <= h` and an
      offset `m < 2^d`. */
  lemma {:induction false} LabelLevel(n: int, h: nat) returns (d: nat, m: nat)
    requires 2 <= n <= Pow2(h + 1) - 1
    ensures 1 <= d <= h && m < Pow2(d) && n == Pow2(d) + m
    decreases h
  {
    assert Pow2(h + 1) == 2 * Pow2(h);
    if h == 0 {
      assert false;
    } else if n < Pow2(h) {
      d, m := LabelLevel(n, h - 1);
    } else {
      d, m := h, n - Pow2(h);
    }
  }
}
