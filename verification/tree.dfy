/** The `NodeTree` class that the MPI program and the task-parallel program share
    (MPI_BFC_dotNET/Program.cs and Parallel_BFS_dotNET/Program.cs hold identical copies
    of everything here; only GenerateTree differs, see module Generate).

    A node exclusively owns its children, so a tree is modelled as a value. A reference
    to a node inside a tree is modelled by its `Path`: the child indices that lead to it
    from the root. Appending a child never shifts an existing index, so a path keeps
    naming the same node for as long as the C# reference would. */
module NodeTree {

  datatype Option<T> = None | Some(value: T)

  /** `name` is the node's label: the counter value the generator gave it, or the
      name the caller chose for a root. `visited` is the `Visited` flag. */
  datatype Node = Node(name: int, children: seq<Node>, visited: bool)

  type Path = seq<nat>

  /** `new NodeTree(name)`: no children, not visited. */
  function NewNode(name: int): (r: Node)
    ensures r.name == name && !r.visited && Size(r) == 1
  {
    Node(name, [], false)
  }

  // ---------------------------------------------------------------------------
  // Paths

  predicate ValidPath(t: Node, p: Path)
    decreases |p|
  {
    |p| == 0 || (p[0] < |t.children| && ValidPath(t.children[p[0]], p[1..]))
  }

  function NodeAt(t: Node, p: Path): Node
    requires ValidPath(t, p)
    decreases |p|
  {
    if |p| == 0 then t else NodeAt(t.children[p[0]], p[1..])
  }

  /** Stepping into child `k` and then following `q`. */
  lemma ConsPath(t: Node, k: nat, q: Path)
    ensures ValidPath(t, [k] + q) <==> k < |t.children| && ValidPath(t.children[k], q)
    ensures ValidPath(t, [k] + q) ==> NodeAt(t, [k] + q) == NodeAt(t.children[k], q)
  {
    assert ([k] + q)[0] == k && ([k] + q)[1..] == q;
  }

  // ---------------------------------------------------------------------------
  // AddChildren (MPI_BFC_dotNET/Program.cs:24-29, Parallel_BFS_dotNET/Program.cs:22-27)

  /** `n.AddChildren(child)`: a non-null node is appended after the existing children,
      a null one is ignored; the node's own name and flag never change. */
  function AddChildren(n: Node, child: Option<Node>): (r: Node)
    ensures r.name == n.name && r.visited == n.visited
    ensures child.None? ==> r == n
    ensures child.Some? ==> |r.children| == |n.children| + 1
    ensures child.Some? ==> r.children[..|n.children|] == n.children
    ensures child.Some? ==> r.children[|n.children|] == child.value
  {
    match child
    case None => n
    case Some(c) => Node(n.name, n.children + [c], n.visited)
  }

  /** `item.AddChildren(c)` where `item` is the node at path `p`. */
  function AddChildAt(t: Node, p: Path, c: Node): (r: Node)
    requires ValidPath(t, p)
    ensures r.name == t.name && r.visited == t.visited
    ensures |r.children| == |t.children| + (if |p| == 0 then 1 else 0)
    decreases |p|
  {
    if |p| == 0 then AddChildren(t, Some(c))
    else Node(t.name, t.children[p[0] := AddChildAt(t.children[p[0]], p[1..], c)], t.visited)
  }

  /** The node at `p` has received `c` as its last child; above it only the list
      entries on the way down were replaced, so the root keeps its name, flag and
      (unless `p` is the root) its number of children. */
  lemma {:induction false} AddChildAtTarget(t: Node, p: Path, c: Node)
    requires ValidPath(t, p)
    ensures var r := AddChildAt(t, p, c);
      && r.name == t.name && r.visited == t.visited
      && |r.children| == |t.children| + (if |p| == 0 then 1 else 0)
      && ValidPath(r, p) && NodeAt(r, p) == AddChildren(NodeAt(t, p), Some(c))
    decreases |p|
  {
    if |p| > 0 {
      AddChildAtTarget(t.children[p[0]], p[1..], c);
    }
  }

  /** Appending a child anywhere keeps every path valid: a reference taken before
      the append still leads to a node afterwards. */
  lemma {:induction false} AddChildAtKeepsPath(t: Node, p: Path, c: Node, q: Path)
    requires ValidPath(t, p) && ValidPath(t, q)
    ensures ValidPath(AddChildAt(t, p, c), q)
    decreases |q|
  {
    var r := AddChildAt(t, p, c);
    if |q| > 0 && |p| > 0 && p[0] == q[0] {
      AddChildAtKeepsPath(t.children[p[0]], p[1..], c, q[1..]);
    }
  }

  /** What `item.AddChildren(c)` through a reference does to every other reference `q`
      into the same tree: `q` still leads to a node with the same name and flag, and
      unless `q` names `item` or one of its ancestors (a prefix of `p`), that node and
      its whole subtree are exactly what they were. */
  lemma {:induction false} AddChildAtFrame(t: Node, p: Path, c: Node, q: Path)
    requires ValidPath(t, p) && ValidPath(t, q)
    ensures ValidPath(AddChildAt(t, p, c), q)
    ensures NodeAt(AddChildAt(t, p, c), q).name == NodeAt(t, q).name
    ensures NodeAt(AddChildAt(t, p, c), q).visited == NodeAt(t, q).visited
    ensures !(|q| <= |p| && q == p[..|q|]) ==> NodeAt(AddChildAt(t, p, c), q) == NodeAt(t, q)
    decreases |q|
  {
    AddChildAtKeepsPath(t, p, c, q);
    if |q| > 0 {
      if |p| > 0 && p[0] == q[0] {
        AddChildAtFrame(t.children[p[0]], p[1..], c, q[1..]);
        if |q| <= |p| && q[1..] == p[1..][..|q| - 1] {
          assert q == [q[0]] + q[1..] && p[..|q|] == [p[0]] + p[1..][..|q| - 1];
        }
      }
    }
  }

  /** Appending below the root keeps the root's own list: same length, same names. */
  lemma AddChildAtRootList(t: Node, p: Path, c: Node)
    requires ValidPath(t, p) && |p| > 0
    ensures |AddChildAt(t, p, c).children| == |t.children|
    ensures forall j :: 0 <= j < |t.children| ==> AddChildAt(t, p, c).children[j].name == t.children[j].name
  {
    AddChildAtTarget(t.children[p[0]], p[1..], c);
  }

  /** Below the root, paths only look at the children lists. */
  lemma SameChildrenAt(a: Node, b: Node, p: Path)
    requires a.children == b.children && |p| > 0
    ensures ValidPath(a, p) <==> ValidPath(b, p)
    ensures ValidPath(a, p) ==> NodeAt(a, p) == NodeAt(b, p)
    ensures ValidPath(a, p) ==> forall c :: AddChildAt(a, p, c).children == AddChildAt(b, p, c).children
  {
  }

  // ---------------------------------------------------------------------------
  // Size: the number of nodes of a tree

  function SizeFrom(t: Node, k: nat): nat
    requires k <= |t.children|
    decreases t, |t.children| - k
  {
    if k == |t.children| then 0
    else 1 + SizeFrom(t.children[k], 0) + SizeFrom(t, k + 1)
  }

  function Size(t: Node): nat
  {
    1 + SizeFrom(t, 0)
  }

  /** The size of a tree depends only on its children lists. */
  lemma {:induction false} SizeFromChildren(a: Node, b: Node, k: nat)
    requires a.children == b.children && k <= |a.children|
    ensures SizeFrom(a, k) == SizeFrom(b, k)
    decreases |a.children| - k
  {
    if k < |a.children| {
      SizeFromChildren(a, b, k + 1);
    }
  }

  lemma {:induction false} SizeFromAppend(t: Node, c: Node, k: nat)
    requires k <= |t.children|
    ensures SizeFrom(AddChildren(t, Some(c)), k) == SizeFrom(t, k) + Size(c)
    decreases |t.children| - k
  {
    var r := AddChildren(t, Some(c));
    if k < |t.children| {
      assert r.children[k] == t.children[k];
      SizeFromAppend(t, c, k + 1);
    } else {
      assert r.children[k] == c;
    }
  }

  lemma {:induction false} SizeFromReplace(t: Node, r: Node, i: nat, delta: int, k: nat)
    requires |r.children| == |t.children| && i < |t.children| && k <= |t.children|
    requires forall j :: 0 <= j < |t.children| && j != i ==> r.children[j] == t.children[j]
    requires Size(r.children[i]) == Size(t.children[i]) + delta
    ensures SizeFrom(r, k) == SizeFrom(t, k) + (if k <= i then delta else 0)
    decreases |t.children| - k
  {
    if k < |t.children| {
      SizeFromReplace(t, r, i, delta, k + 1);
    }
  }

  /** Appending the tree `c` anywhere adds exactly `Size(c)` nodes. */
  lemma {:induction false} AddChildAtSize(t: Node, p: Path, c: Node)
    requires ValidPath(t, p)
    ensures Size(AddChildAt(t, p, c)) == Size(t) + Size(c)
    decreases |p|
  {
    if |p| == 0 {
      SizeFromAppend(t, c, 0);
    } else {
      AddChildAtSize(t.children[p[0]], p[1..], c);
      SizeFromReplace(t, AddChildAt(t, p, c), p[0], Size(c), 0);
    }
  }

  // ---------------------------------------------------------------------------
  // DeepNextChildren (MPI_BFC_dotNET/Program.cs:39-46, Parallel_BFS_dotNET/Program.cs:36-43)

  /** The default of the `MinChildrens` parameter; the recursive call inside
      DeepNextChildren does not pass the caller's value on, so below the first
      level this default always applies. */
  const DefaultMinChildren := 2

  function Prefixed(k: nat, ps: seq<Path>): seq<Path>
  {
    seq(|ps|, j requires 0 <= j < |ps| => [k] + ps[j])
  }

  /** What the generator yields for children `k..` of `t`: a child with at least
      `minChildren` children is replaced by its own frontier, any other child is
      yielded itself. */
  function FrontierFrom(t: Node, k: nat, minChildren: int): seq<Path>
    requires k <= |t.children|
    decreases t, |t.children| - k
  {
    if k == |t.children| then []
    else
      (if |t.children[k].children| >= minChildren
       then Prefixed(k, FrontierFrom(t.children[k], 0, DefaultMinChildren))
       else [[k]])
      + FrontierFrom(t, k + 1, minChildren)
  }

  /** `t.DeepNextChildren(minChildren)`, computed eagerly; each yielded node is
      given by its path from `t`. With a minimum of one or more no child is lost:
      each yields itself or its own, non-empty, frontier. */
  function DeepNextChildren(t: Node, minChildren: int): (r: seq<Path>)
    ensures minChildren >= 1 ==> |r| >= |t.children|
  {
    if minChildren >= 1 then FrontierCount(t, 0, minChildren); FrontierFrom(t, 0, minChildren)
    else FrontierFrom(t, 0, minChildren)
  }

  /** Children `k..` yield at least one item each. */
  lemma {:induction false} FrontierCount(t: Node, k: nat, minChildren: int)
    requires k <= |t.children| && minChildren >= 1
    ensures |FrontierFrom(t, k, minChildren)| >= |t.children| - k
    decreases |t.children| - k
  {
    if k < |t.children| {
      FrontierCount(t, k + 1, minChildren);
      if |t.children[k].children| >= minChildren {
        FrontierNonEmpty(t.children[k], 0, DefaultMinChildren);
      }
    }
  }

  /** `q` goes through complete nodes only: every node strictly between `t` and
      the end of `q` has at least two children. */
  predicate ThroughComplete(t: Node, q: Path)
    requires ValidPath(t, q)
  {
    forall l :: 1 <= l < |q| ==> ValidPath(t, q[..l]) && |NodeAt(t, q[..l]).children| >= DefaultMinChildren
  }

  /** A frontier node of `t`: a proper descendant with fewer than two children whose
      ancestors below `t` all have two or more. */
  predicate IsFrontier(t: Node, q: Path)
  {
    && 1 <= |q| && ValidPath(t, q)
    && |NodeAt(t, q).children| < DefaultMinChildren
    && ThroughComplete(t, q)
  }

  lemma ThroughCompleteCons(t: Node, k: nat, q: Path)
    requires k < |t.children| && ValidPath(t.children[k], q)
    requires |t.children[k].children| >= DefaultMinChildren || |q| == 0
    ensures ValidPath(t, [k] + q) && NodeAt(t, [k] + q) == NodeAt(t.children[k], q)
    ensures ThroughComplete(t, [k] + q) <==> ThroughComplete(t.children[k], q)
  {
    ConsPath(t, k, q);
    var p := [k] + q;
    var c := t.children[k];
    if ThroughComplete(c, q) {
      forall l | 1 <= l < |p|
        ensures ValidPath(t, p[..l]) && |NodeAt(t, p[..l]).children| >= DefaultMinChildren
      {
        assert p[..l] == [k] + q[..l - 1];
        ConsPath(t, k, q[..l - 1]);
        if l == 1 {
          assert q[..0] == [];
        }
      }
    }
    if ThroughComplete(t, p) {
      forall l | 1 <= l < |q|
        ensures ValidPath(c, q[..l]) && |NodeAt(c, q[..l]).children| >= DefaultMinChildren
      {
        assert p[..l + 1] == [k] + q[..l];
        ConsPath(t, k, q[..l]);
      }
    }
  }

  /** Everything DeepNextChildren yields is a frontier node, and it lies under
      child `k` or a later one. */
  lemma {:induction false} FrontierSound(t: Node, k: nat)
    requires k <= |t.children|
    ensures forall p :: p in FrontierFrom(t, k, DefaultMinChildren) ==> IsFrontier(t, p) && k <= p[0]
    decreases t, |t.children| - k
  {
    if k < |t.children| {
      var c := t.children[k];
      FrontierSound(t, k + 1);
      if |c.children| >= DefaultMinChildren {
        FrontierSound(c, 0);
        var inner := FrontierFrom(c, 0, DefaultMinChildren);
        forall p | p in Prefixed(k, inner) ensures IsFrontier(t, p) && k <= p[0] {
          var j :| 0 <= j < |inner| && p == Prefixed(k, inner)[j];
          ThroughCompleteCons(t, k, inner[j]);
        }
      } else {
        ThroughCompleteCons(t, k, []);
        assert [k] + [] == [k];
      }
    }
  }

  /** Every frontier node under child `k` or a later one is yielded. */
  lemma {:induction false} FrontierComplete(t: Node, k: nat, p: Path)
    requires k <= |t.children| && IsFrontier(t, p) && k <= p[0]
    ensures p in FrontierFrom(t, k, DefaultMinChildren)
    decreases t, |t.children| - k, 1
  {
    if p[0] > k {
      FrontierComplete(t, k + 1, p);
      FrontierTail(t, k, p);
    } else if |p| == 1 {
      FrontierCompleteAt(t, k, p);
    } else {
      FrontierCompleteBelow(t, k, p);
    }
  }

  /** What children `k + 1..` yield, children `k..` yield too. */
  lemma FrontierTail(t: Node, k: nat, p: Path)
    requires k < |t.children| && p in FrontierFrom(t, k + 1, DefaultMinChildren)
    ensures p in FrontierFrom(t, k, DefaultMinChildren)
  {
    var head := if |t.children[k].children| >= DefaultMinChildren
      then Prefixed(k, FrontierFrom(t.children[k], 0, DefaultMinChildren))
      else [[k]];
    assert FrontierFrom(t, k, DefaultMinChildren) == head + FrontierFrom(t, k + 1, DefaultMinChildren);
  }

  /** A frontier node that is child `k` itself is yielded by children `k..`. */
  lemma FrontierCompleteAt(t: Node, k: nat, p: Path)
    requires k <= |t.children| && IsFrontier(t, p) && p == [k]
    ensures p in FrontierFrom(t, k, DefaultMinChildren)
  {
    ConsPath(t, k, []);
    assert p == [k] + [];
    var rest := FrontierFrom(t, k + 1, DefaultMinChildren);
    assert NodeAt(t, p) == t.children[k];
    assert FrontierFrom(t, k, DefaultMinChildren) == [[k]] + rest;
    assert ([[k]] + rest)[0] == p;
  }

  /** A frontier node strictly below child `k` is found in the frontier of that child. */
  lemma {:induction false} FrontierCompleteBelow(t: Node, k: nat, p: Path)
    requires k < |t.children| && IsFrontier(t, p) && p[0] == k && |p| > 1
    ensures p in FrontierFrom(t, k, DefaultMinChildren)
    decreases t, |t.children| - k, 0
  {
    ConsPath(t, k, p[1..]);
    assert p == [k] + p[1..];
    var c := t.children[k];
    assert p[..1] == [k] + [];
    ConsPath(t, k, []);
    assert ValidPath(t, p[..1]) && |NodeAt(t, p[..1]).children| >= DefaultMinChildren;
    ThroughCompleteCons(t, k, p[1..]);
    FrontierComplete(c, 0, p[1..]);
    var inner := FrontierFrom(c, 0, DefaultMinChildren);
    var j :| 0 <= j < |inner| && inner[j] == p[1..];
    assert Prefixed(k, inner)[j] == p;
    assert FrontierFrom(t, k, DefaultMinChildren) == Prefixed(k, inner) + FrontierFrom(t, k + 1, DefaultMinChildren);
  }

  /** With the default minimum, DeepNextChildren yields exactly the frontier nodes. */
  lemma DeepNextChildrenIsFrontier(t: Node, p: Path)
    ensures p in DeepNextChildren(t, DefaultMinChildren) <==> IsFrontier(t, p)
  {
    FrontierSound(t, 0);
    if IsFrontier(t, p) {
      FrontierComplete(t, 0, p);
    }
  }

  /** `p` lies to the left of `q`: at the first place where they differ, `p` takes
      the earlier child. */
  predicate LeftOf(p: Path, q: Path)
    decreases |p|
  {
    |p| > 0 && |q| > 0 && (p[0] < q[0] || (p[0] == q[0] && LeftOf(p[1..], q[1..])))
  }

  predicate LeftToRight(ps: seq<Path>)
  {
    forall i, j :: 0 <= i < j < |ps| ==> LeftOf(ps[i], ps[j])
  }

  lemma {:induction false} LeftOfIrreflexive(p: Path)
    ensures !LeftOf(p, p)
    decreases |p|
  {
    if |p| > 0 {
      LeftOfIrreflexive(p[1..]);
    }
  }

  lemma LeftToRightConcat(a: seq<Path>, b: seq<Path>)
    requires LeftToRight(a) && LeftToRight(b)
    requires forall x, y :: x in a && y in b ==> LeftOf(x, y)
    ensures LeftToRight(a + b)
  {
    var f := a + b;
    forall i, j | 0 <= i < j < |f| ensures LeftOf(f[i], f[j]) {
      if i < |a| && j >= |a| {
        assert f[i] in a && f[j] in b;
      } else if i >= |a| {
        assert f[i] == b[i - |a|] && f[j] == b[j - |a|];
      }
    }
  }

  lemma PrefixedLeftToRight(k: nat, ps: seq<Path>)
    requires LeftToRight(ps)
    ensures LeftToRight(Prefixed(k, ps))
  {
    var f := Prefixed(k, ps);
    forall i, j | 0 <= i < j < |f| ensures LeftOf(f[i], f[j]) {
      assert f[i][1..] == ps[i] && f[j][1..] == ps[j];
    }
  }

  /** DeepNextChildren yields nodes from left to right. */
  lemma {:induction false} FrontierLeftToRight(t: Node, k: nat)
    requires k <= |t.children|
    ensures LeftToRight(FrontierFrom(t, k, DefaultMinChildren))
    decreases t, |t.children| - k
  {
    if k < |t.children| {
      var c := t.children[k];
      var rest := FrontierFrom(t, k + 1, DefaultMinChildren);
      FrontierLeftToRight(t, k + 1);
      FrontierSound(t, k + 1);
      var head := if |c.children| >= DefaultMinChildren
        then Prefixed(k, FrontierFrom(c, 0, DefaultMinChildren)) else [[k]];
      assert FrontierFrom(t, k, DefaultMinChildren) == head + rest;
      if |c.children| >= DefaultMinChildren {
        FrontierLeftToRight(c, 0);
        PrefixedLeftToRight(k, FrontierFrom(c, 0, DefaultMinChildren));
      }
      assert forall x :: x in head ==> |x| > 0 && x[0] == k;
      LeftToRightConcat(head, rest);
    }
  }

  /** Being yielded in left-to-right order, no node is yielded twice. */
  lemma FrontierDistinct(t: Node)
    ensures forall i, j :: 0 <= i < j < |DeepNextChildren(t, DefaultMinChildren)| ==>
      DeepNextChildren(t, DefaultMinChildren)[i] != DeepNextChildren(t, DefaultMinChildren)[j]
  {
    var f := DeepNextChildren(t, DefaultMinChildren);
    FrontierLeftToRight(t, 0);
    forall i, j | 0 <= i < j < |f| ensures f[i] != f[j] {
      LeftOfIrreflexive(f[i]);
    }
  }

  /** A node with children always has a non-empty frontier: this is what makes every
      pass of the generator grow the tree. */
  lemma {:induction false} FrontierNonEmpty(t: Node, k: nat, minChildren: int)
    requires k < |t.children| && minChildren >= 1
    ensures |FrontierFrom(t, k, minChildren)| > 0
    decreases t, |t.children| - k
  {
    var c := t.children[k];
    if |c.children| >= minChildren {
      FrontierNonEmpty(c, 0, DefaultMinChildren);
    }
  }

  // ---------------------------------------------------------------------------
  // ToString() and ToString(bool) (MPI_BFC_dotNET/Program.cs:70-91,
  // Parallel_BFS_dotNET/Program.cs:69-90)

  /** One rendered line: the node's name, its flag and its children's names. */
  datatype Line = Line(name: int, visited: bool, childNames: seq<int>)

  /** The rendered text as a sequence of lines and the `" \n"` line ends. */
  datatype Token = Text(line: Line) | LineBreak

  function Header(n: Node): Line
  {
    Line(n.name, n.visited, seq(|n.children|, j requires 0 <= j < |n.children| => n.children[j].name))
  }

  /** `n.ToString()`: a single line, without a line end. */
  function ToString(n: Node): (r: seq<Token>)
    ensures |r| == 1 && LineBreak !in r
  {
    [Text(Header(n))]
  }

  function DetailsFrom(n: Node, k: nat): (r: seq<Token>)
    requires k <= |n.children|
    ensures forall i :: 0 <= i < |r| && r[i].Text? ==> |r[i].line.childNames| > 0
    decreases n, |n.children| - k
  {
    if k == |n.children| then []
    else
      (if |n.children[k].children| > 0
       then [Text(Header(n.children[k])), LineBreak] + DetailsFrom(n.children[k], 0)
       else [])
      + DetailsFrom(n, k + 1)
  }

  /** `n.ToString(details)`. */
  function ToStringDetailed(n: Node, details: bool): (r: seq<Token>)
    ensures !details ==> |r| == 1 && LineBreak !in r
    ensures details ==> |r| >= 2 && r[..2] == ToString(n) + [LineBreak]
    ensures details ==> forall i :: 2 <= i < |r| && r[i].Text? ==> |r[i].line.childNames| > 0
  {
    if details then [Text(Header(n)), LineBreak] + DetailsFrom(n, 0)
    else ToString(n)
  }

  /** The proper descendants of `n` under children `k..`, in pre-order. */
  function DescendantsFrom(n: Node, k: nat): seq<Node>
    requires k <= |n.children|
    decreases n, |n.children| - k
  {
    if k == |n.children| then []
    else [n.children[k]] + DescendantsFrom(n.children[k], 0) + DescendantsFrom(n, k + 1)
  }

  function Descendants(n: Node): seq<Node>
  {
    DescendantsFrom(n, 0)
  }

  function NonLeaves(ns: seq<Node>): seq<Node>
  {
    if ns == [] then []
    else (if |ns[0].children| > 0 then [ns[0]] else []) + NonLeaves(ns[1..])
  }

  /** Each node's line followed by a line end. */
  function Lines(ns: seq<Node>): seq<Token>
  {
    if ns == [] then [] else [Text(Header(ns[0])), LineBreak] + Lines(ns[1..])
  }

  lemma AppendAssoc<T>(x: seq<T>, y: seq<T>, z: seq<T>)
    ensures x + (y + z) == (x + y) + z
  {
  }

  lemma {:induction false} NonLeavesConcat(a: seq<Node>, b: seq<Node>)
    ensures NonLeaves(a + b) == NonLeaves(a) + NonLeaves(b)
  {
    if a != [] {
      var head := if |a[0].children| > 0 then [a[0]] else [];
      assert (a + b)[0] == a[0] && (a + b)[1..] == a[1..] + b;
      NonLeavesConcat(a[1..], b);
      AppendAssoc(head, NonLeaves(a[1..]), NonLeaves(b));
    } else {
      assert a + b == b;
    }
  }

  lemma {:induction false} LinesConcat(a: seq<Node>, b: seq<Node>)
    ensures Lines(a + b) == Lines(a) + Lines(b)
  {
    if a != [] {
      assert (a + b)[1..] == a[1..] + b;
      LinesConcat(a[1..], b);
    } else {
      assert a + b == b;
    }
  }

  lemma {:induction false} DetailsFromPreOrder(n: Node, k: nat)
    requires k <= |n.children|
    ensures DetailsFrom(n, k) == Lines(NonLeaves(DescendantsFrom(n, k)))
    decreases n, |n.children| - k
  {
    if k < |n.children| {
      var c := n.children[k];
      var below := DescendantsFrom(c, 0);
      var rest := DescendantsFrom(n, k + 1);
      DetailsFromPreOrder(c, 0);
      DetailsFromPreOrder(n, k + 1);
      NonLeavesConcat([c] + below, rest);
      NonLeavesConcat([c], below);
      assert NonLeaves([c]) == if |c.children| > 0 then [c] else [] by {
        assert [c][1..] == [];
      }
      LinesConcat(NonLeaves([c]) + NonLeaves(below), NonLeaves(rest));
      LinesConcat(NonLeaves([c]), NonLeaves(below));
      if |c.children| > 0 {
        assert Lines([c]) == [Text(Header(c)), LineBreak] by {
          assert [c][1..] == [];
        }
      } else {
        assert below == [];
      }
    }
  }

  /** `ToString(false)` is `ToString()`; `ToString(true)` is one line, each ended
      by a line break, for the node itself and then for each proper descendant that
      has children, in pre-order: leaves get no line of their own. */
  lemma ToStringDetailedPreOrder(n: Node)
    ensures ToStringDetailed(n, false) == ToString(n)
    ensures ToStringDetailed(n, true) == Lines([n] + NonLeaves(Descendants(n)))
  {
    DetailsFromPreOrder(n, 0);
    LinesConcat([n], NonLeaves(Descendants(n)));
    assert Lines([n]) == [Text(Header(n)), LineBreak] by {
      assert [n][1..] == [];
    }
  }
}
