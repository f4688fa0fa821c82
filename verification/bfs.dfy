/** The sequential breadth-first search of OpenMP_BFS_CPP/OpenMP_BFS_CPP.cpp: the
    global adjacency lists `graph`, the FIFO queue `qq` and the marker array `marked`
    (0 = unseen, 1 = queued, 2 = processed). */
module Bfs {

  // ---------------------------------------------------------------------------
  // Graphs as values

  /** Every entry of `xs` names a vertex of `g`. */
  predicate InRange(g: seq<seq<int>>, xs: seq<int>)
  {
    forall k :: 0 <= k < |xs| ==> 0 <= xs[k] < |g|
  }

  /** Every adjacency list names only vertices of the graph. */
  predicate WellFormed(g: seq<seq<int>>)
  {
    forall v :: 0 <= v < |g| ==> InRange(g, g[v])
  }

  predicate NoDup(xs: seq<int>)
  {
    forall i, j :: 0 <= i < j < |xs| ==> xs[i] != xs[j]
  }

  /** No marker of `a` is above the same marker of `b`. */
  predicate Raised(a: seq<int>, b: seq<int>)
  {
    |a| == |b| && forall v :: 0 <= v < |a| ==> a[v] <= b[v]
  }

  predicate AllZero(m: seq<int>)
  {
    forall v :: 0 <= v < |m| ==> m[v] == 0
  }

  /** `v` is on the adjacency list of `u`. */
  predicate Edge(g: seq<seq<int>>, u: int, v: int)
  {
    0 <= u < |g| && v in g[u]
  }

  /** Every edge is listed in both directions. */
  predicate Undirected(g: seq<seq<int>>)
  {
    forall u, v :: 0 <= u < |g| && 0 <= v < |g| ==> (v in g[u] <==> u in g[v])
  }

  /** `path` follows edges of `g` from its first vertex to its last. */
  ghost predicate IsWalk(g: seq<seq<int>>, path: seq<int>)
    decreases |path|
  {
    |path| > 0 &&
    (|path| > 1 ==> IsWalk(g, path[..|path| - 1]) && Edge(g, path[|path| - 2], path[|path| - 1]))
  }

  ghost predicate Reachable(g: seq<seq<int>>, s: int, v: int)
  {
    exists path :: IsWalk(g, path) && path[0] == s && path[|path| - 1] == v
  }

  lemma ReachableStart(g: seq<seq<int>>, s: int)
    ensures Reachable(g, s, s)
  {
    assert IsWalk(g, [s]);
  }

  lemma ReachableStep(g: seq<seq<int>>, s: int, u: int, w: int)
    requires Reachable(g, s, u) && Edge(g, u, w)
    ensures Reachable(g, s, w)
  {
    var path :| IsWalk(g, path) && path[0] == s && path[|path| - 1] == u;
    var longer := path + [w];
    assert longer[..|longer| - 1] == path;
    assert IsWalk(g, longer);
  }

  /** A set of vertices that holds `s` and is closed under edges holds every vertex
      reachable from `s`; the set here is `{v | m[v] == 2}`. */
  lemma {:induction false} ClosedHoldsWalk(g: seq<seq<int>>, m: seq<int>, s: int, path: seq<int>)
    requires WellFormed(g) && |m| == |g| && 0 <= s < |g| && m[s] == 2
    requires forall v, j :: 0 <= v < |m| && m[v] == 2 && 0 <= j < |g[v]| ==> m[g[v][j]] == 2
    requires IsWalk(g, path) && path[0] == s
    ensures 0 <= path[|path| - 1] < |g| && m[path[|path| - 1]] == 2
    decreases |path|
  {
    if |path| > 1 {
      var prefix := path[..|path| - 1];
      ClosedHoldsWalk(g, m, s, prefix);
      var u := path[|path| - 2];
      assert prefix[|prefix| - 1] == u;
      var j :| 0 <= j < |g[u]| && g[u][j] == path[|path| - 1];
    }
  }

  // ---------------------------------------------------------------------------
  // Edge insertion

  /** `graph[node1].push_back(node2); graph[node2].push_back(node1);` */
  function InsertEdge(g: seq<seq<int>>, a: int, b: int): (r: seq<seq<int>>)
    requires 0 <= a < |g| && 0 <= b < |g|
    ensures |r| == |g|
    ensures a != b ==> r[a] == g[a] + [b] && r[b] == g[b] + [a]
    ensures a == b ==> r[a] == g[a] + [a, a]
    ensures forall v :: 0 <= v < |g| && v != a && v != b ==> r[v] == g[v]
  {
    var g1 := g[a := g[a] + [b]];
    g1[b := g1[b] + [a]]
  }

  /** Inserting an edge keeps the lists in range and the graph undirected, and makes
      each end a neighbour of the other. */
  lemma InsertEdgeUndirected(g: seq<seq<int>>, a: int, b: int)
    requires 0 <= a < |g| && 0 <= b < |g|
    ensures WellFormed(g) ==> WellFormed(InsertEdge(g, a, b))
    ensures Undirected(g) ==> Undirected(InsertEdge(g, a, b))
    ensures Edge(InsertEdge(g, a, b), a, b) && Edge(InsertEdge(g, a, b), b, a)
  {
    var r := InsertEdge(g, a, b);
    assert b in r[a] && a in r[b] by {
      if a == b {
        assert r[a][|g[a]|] == a;
      } else {
        assert r[a][|g[a]|] == b;
        assert r[b][|g[b]|] == a;
      }
    }
    forall u, v | 0 <= u < |g| && 0 <= v < |g|
      ensures v in r[u] <==> v in g[u] || (u == a && v == b) || (u == b && v == a)
    {
      if u == a && u == b {
        assert r[u] == g[u] + [a, a];
      } else if u == a {
        assert r[u] == g[u] + [b];
      } else if u == b {
        assert r[u] == g[u] + [a];
      }
    }
    if WellFormed(g) {
      forall v | 0 <= v < |r| ensures InRange(r, r[v]) {
        assert InRange(g, g[v]);
        forall k | 0 <= k < |r[v]| ensures 0 <= r[v][k] < |r| {
          assert r[v][k] in r[v];
          if k < |g[v]| {
            assert r[v][k] == g[v][k];
          }
        }
      }
    }
  }

  // ---------------------------------------------------------------------------
  // One scan over a node's neighbours

  /** The marker array and the queue, as values. */
  datatype Snapshot = Snapshot(marked: seq<int>, queue: seq<int>)

  /** The number of unseen vertices. */
  function CountZeros(m: seq<int>): nat
    decreases |m|
  {
    if m == [] then 0 else CountZeros(m[..|m| - 1]) + (if m[|m| - 1] == 0 then 1 else 0)
  }

  /** Marking a vertex removes it from the unseen ones if it was unseen. */
  lemma {:induction false} CountZerosUpdate(m: seq<int>, i: int, x: int)
    requires 0 <= i < |m| && x != 0
    ensures CountZeros(m[i := x]) == CountZeros(m) - (if m[i] == 0 then 1 else 0)
    decreases |m|
  {
    var n := |m| - 1;
    if i == n {
      assert m[i := x][..n] == m[..n];
    } else {
      assert m[i := x][..n] == m[..n][i := x];
      CountZerosUpdate(m[..n], i, x);
    }
  }

  /** Visiting neighbour `w`: an unseen vertex is pushed and marked as queued. */
  function Push(w: int, s: Snapshot): (r: Snapshot)
    requires 0 <= w < |s.marked|
    ensures |r.marked| == |s.marked| && r.marked[w] != 0
    ensures |r.queue| == |s.queue| + (if s.marked[w] == 0 then 1 else 0)
    ensures r.queue[..|s.queue|] == s.queue && (s.marked[w] == 0 ==> r.queue[|s.queue|] == w)
  {
    if s.marked[w] == 0 then Snapshot(s.marked[w := 1], s.queue + [w]) else s
  }

  /** The inner `for` loop of `s_bfs` over the adjacency list `adj`: it keeps the
      queue it was given as a prefix and only turns unseen vertices into queued ones. */
  function Scan(adj: seq<int>, s: Snapshot): (r: Snapshot)
    requires forall k :: 0 <= k < |adj| ==> 0 <= adj[k] < |s.marked|
    ensures |r.marked| == |s.marked|
    ensures |s.queue| <= |r.queue| && r.queue[..|s.queue|] == s.queue
    ensures forall v :: 0 <= v < |s.marked| ==>
      r.marked[v] == s.marked[v] || (s.marked[v] == 0 && r.marked[v] == 1)
    decreases |adj|
  {
    if adj == [] then s
    else Push(adj[|adj| - 1], Scan(adj[..|adj| - 1], s))
  }

  /** Every vertex `r` holds beyond the queue of `s` was an unseen neighbour and is now
      marked as queued. */
  predicate PushedUnseen(adj: seq<int>, s: Snapshot, r: Snapshot)
  {
    && |r.marked| == |s.marked| && |s.queue| <= |r.queue|
    && forall k :: |s.queue| <= k < |r.queue| ==>
      && 0 <= r.queue[k] < |s.marked| && s.marked[r.queue[k]] == 0 && r.marked[r.queue[k]] == 1
      && r.queue[k] in adj
  }

  /** Every vertex turned from unseen to queued is among those pushed. */
  predicate MarkedPushed(s: Snapshot, r: Snapshot)
  {
    && |r.marked| == |s.marked| && |s.queue| <= |r.queue|
    && forall v :: 0 <= v < |s.marked| && s.marked[v] == 0 && r.marked[v] == 1 ==>
      v in r.queue[|s.queue|..]
  }

  /** The vertices a scan pushes are exactly the unseen neighbours it marked, each
      pushed once. */
  lemma ScanPushes(adj: seq<int>, s: Snapshot)
    requires forall k :: 0 <= k < |adj| ==> 0 <= adj[k] < |s.marked|
    ensures PushedUnseen(adj, s, Scan(adj, s))
    ensures MarkedPushed(s, Scan(adj, s))
    ensures NoDup(Scan(adj, s).queue[|s.queue|..])
  {
    ScanPushedUnseen(adj, s);
    ScanMarkedPushed(adj, s);
    ScanPushedOnce(adj, s);
  }

  /** Each pushed vertex is an unseen neighbour, now marked as queued. */
  lemma {:induction false} ScanPushedUnseen(adj: seq<int>, s: Snapshot)
    requires forall k :: 0 <= k < |adj| ==> 0 <= adj[k] < |s.marked|
    ensures PushedUnseen(adj, s, Scan(adj, s))
    decreases |adj|
  {
    if adj != [] {
      var n := |adj| - 1;
      var w := adj[n];
      var mid := Scan(adj[..n], s);
      var r := Scan(adj, s);
      ScanPushedUnseen(adj[..n], s);
      forall k | |s.queue| <= k < |r.queue|
        ensures && 0 <= r.queue[k] < |s.marked| && s.marked[r.queue[k]] == 0
          && r.marked[r.queue[k]] == 1 && r.queue[k] in adj
      {
        if k < |mid.queue| {
          assert r.queue[k] == mid.queue[k];
          assert mid.queue[k] in adj[..n];
        } else {
          assert r.queue[k] == w;
        }
      }
    }
  }

  /** Each vertex the scan marked as queued was pushed. */
  lemma {:induction false} ScanMarkedPushed(adj: seq<int>, s: Snapshot)
    requires forall k :: 0 <= k < |adj| ==> 0 <= adj[k] < |s.marked|
    ensures MarkedPushed(s, Scan(adj, s))
    decreases |adj|
  {
    if adj != [] {
      var n := |adj| - 1;
      var mid := Scan(adj[..n], s);
      ScanMarkedPushed(adj[..n], s);
      if mid.marked[adj[n]] == 0 {
        assert mid.queue[|s.queue|..] + [adj[n]] == (mid.queue + [adj[n]])[|s.queue|..];
      }
    }
  }

  /** No vertex is pushed twice in one scan. */
  lemma {:induction false} ScanPushedOnce(adj: seq<int>, s: Snapshot)
    requires forall k :: 0 <= k < |adj| ==> 0 <= adj[k] < |s.marked|
    ensures NoDup(Scan(adj, s).queue[|s.queue|..])
    decreases |adj|
  {
    if adj != [] {
      var n := |adj| - 1;
      var w := adj[n];
      var mid := Scan(adj[..n], s);
      ScanPushedOnce(adj[..n], s);
      if mid.marked[w] == 0 {
        ScanPushedUnseen(adj[..n], s);
        var old_pushed := mid.queue[|s.queue|..];
        forall k | 0 <= k < |old_pushed| ensures old_pushed[k] != w {
          var i := |s.queue| + k;
          assert old_pushed[k] == mid.queue[i];
          assert 0 <= mid.queue[i] < |s.marked| && mid.marked[mid.queue[i]] == 1;
        }
        assert (mid.queue + [w])[|s.queue|..] == old_pushed + [w];
      }
    }
  }

  /** After a scan no neighbour is unseen. */
  lemma {:induction false} ScanCovers(adj: seq<int>, s: Snapshot)
    requires forall k :: 0 <= k < |adj| ==> 0 <= adj[k] < |s.marked|
    ensures forall k :: 0 <= k < |adj| ==> Scan(adj, s).marked[adj[k]] != 0
    decreases |adj|
  {
    if adj != [] {
      var n := |adj| - 1;
      ScanCovers(adj[..n], s);
      assert forall k :: 0 <= k < n ==> adj[..n][k] == adj[k];
    }
  }

  /** Every push uses up one unseen vertex. */
  lemma {:induction false} ScanCount(adj: seq<int>, s: Snapshot)
    requires forall k :: 0 <= k < |adj| ==> 0 <= adj[k] < |s.marked|
    ensures CountZeros(Scan(adj, s).marked) + (|Scan(adj, s).queue| - |s.queue|) == CountZeros(s.marked)
    decreases |adj|
  {
    if adj != [] {
      var n := |adj| - 1;
      var mid := Scan(adj[..n], s);
      ScanCount(adj[..n], s);
      if mid.marked[adj[n]] == 0 {
        CountZerosUpdate(mid.marked, adj[n], 1);
      }
    }
  }

  // ---------------------------------------------------------------------------
  // The invariant of the outer loop, for a search that starts from an all-unseen array

  /** Markers only take the values 0, 1 and 2. */
  predicate Markers(m: seq<int>)
  {
    forall v :: 0 <= v < |m| ==> 0 <= m[v] <= 2
  }

  /** Every queued vertex is marked as queued, and the queue holds no vertex twice. */
  predicate QueueMarked(m: seq<int>, q: seq<int>)
  {
    (forall k :: 0 <= k < |q| ==> 0 <= q[k] < |m| && m[q[k]] == 1) && NoDup(q)
  }

  /** Every vertex marked as queued is in the queue. */
  predicate MarkedQueued(m: seq<int>, q: seq<int>)
  {
    forall v :: 0 <= v < |m| && m[v] == 1 ==> v in q
  }

  ghost predicate MarkedReachable(g: seq<seq<int>>, m: seq<int>, s: int)
  {
    forall v :: 0 <= v < |m| && m[v] != 0 ==> Reachable(g, s, v)
  }

  /** A processed vertex has no unseen neighbour. */
  predicate ProcessedClosed(g: seq<seq<int>>, m: seq<int>)
  {
    forall v, j :: 0 <= v < |m| && v < |g| && m[v] == 2 && 0 <= j < |g[v]| ==>
      0 <= g[v][j] < |m| && m[g[v][j]] != 0
  }

  /** `enq` lists every vertex that is no longer unseen, each once. */
  predicate PushedOnce(m: seq<int>, enq: seq<int>)
  {
    && (forall k :: 0 <= k < |enq| ==> 0 <= enq[k] < |m|)
    && NoDup(enq)
    && (forall v :: 0 <= v < |m| ==> (m[v] != 0 <==> v in enq))
  }

  /** Between two pops after the first one: queued vertices are exactly those marked 1,
      each queued once; every marked vertex is reachable; a processed vertex has no
      unseen neighbour; and `enq`, every vertex ever pushed, lists each marked vertex
      exactly once. */
  ghost predicate BfsInv(g: seq<seq<int>>, m: seq<int>, q: seq<int>, s: int, enq: seq<int>)
  {
    && |m| == |g| && WellFormed(g) && 0 <= s < |g| && m[s] != 0
    && Markers(m) && QueueMarked(m, q) && MarkedQueued(m, q)
    && MarkedReachable(g, m, s) && ProcessedClosed(g, m) && PushedOnce(m, enq)
  }

  /** One iteration of the outer loop: pop the front, mark it processed, scan its
      neighbours. */
  function Pop(g: seq<seq<int>>, st: Snapshot): (r: Snapshot)
    requires WellFormed(g) && |st.marked| == |g| && InRange(g, st.queue) && st.queue != []
    ensures |r.marked| == |g| && r.marked[st.queue[0]] == 2
    ensures |st.queue| - 1 <= |r.queue| && r.queue[..|st.queue| - 1] == st.queue[1..]
  {
    var node := st.queue[0];
    assert InRange(g, g[node]);
    Scan(g[node], Snapshot(st.marked[node := 2], st.queue[1..]))
  }

  /** The facts about one scan that the steps below rely on. */
  predicate Scanned(adj: seq<int>, m1: seq<int>, q1: seq<int>, r: Snapshot)
  {
    && |r.marked| == |m1|
    && |q1| <= |r.queue| && r.queue[..|q1|] == q1
    && (forall v :: 0 <= v < |m1| ==> r.marked[v] == m1[v] || (m1[v] == 0 && r.marked[v] == 1))
    && (forall k :: |q1| <= k < |r.queue| ==>
      && 0 <= r.queue[k] < |m1| && m1[r.queue[k]] == 0 && r.marked[r.queue[k]] == 1
      && r.queue[k] in adj)
    && (forall v :: 0 <= v < |m1| && m1[v] == 0 && r.marked[v] == 1 ==> v in r.queue[|q1|..])
    && NoDup(r.queue[|q1|..])
    && (forall k :: 0 <= k < |adj| ==> 0 <= adj[k] < |m1| && r.marked[adj[k]] != 0)
  }

  lemma ScanScanned(adj: seq<int>, m1: seq<int>, q1: seq<int>)
    requires forall k :: 0 <= k < |adj| ==> 0 <= adj[k] < |m1|
    ensures Scanned(adj, m1, q1, Scan(adj, Snapshot(m1, q1)))
  {
    ScanPushes(adj, Snapshot(m1, q1));
    ScanCovers(adj, Snapshot(m1, q1));
  }

  /** After popping `node` and scanning, the queue is still exactly the vertices marked
      as queued, each once. */
  lemma PopKeepsQueue(m: seq<int>, q: seq<int>, adj: seq<int>, r: Snapshot)
    requires Markers(m) && QueueMarked(m, q) && MarkedQueued(m, q) && q != []
    requires Scanned(adj, m[q[0] := 2], q[1..], r)
    ensures Markers(r.marked) && QueueMarked(r.marked, r.queue) && MarkedQueued(r.marked, r.queue)
  {
    assert r.queue == q[1..] + r.queue[|q| - 1..];
    PopQueueMarked(m, q, adj, r);
    PopQueueNoDup(m, q, adj, r);
    PopMarkedQueued(m, q, adj, r);
  }

  lemma PopQueueMarked(m: seq<int>, q: seq<int>, adj: seq<int>, r: Snapshot)
    requires QueueMarked(m, q) && q != []
    requires Scanned(adj, m[q[0] := 2], q[1..], r)
    ensures forall k :: 0 <= k < |r.queue| ==> 0 <= r.queue[k] < |r.marked| && r.marked[r.queue[k]] == 1
  {
    forall k | 0 <= k < |r.queue| ensures 0 <= r.queue[k] < |r.marked| && r.marked[r.queue[k]] == 1 {
      if k < |q| - 1 {
        assert r.queue[k] == q[1..][k] == q[k + 1];
        assert q[k + 1] != q[0];
      }
    }
  }

  lemma PopQueueNoDup(m: seq<int>, q: seq<int>, adj: seq<int>, r: Snapshot)
    requires QueueMarked(m, q) && q != []
    requires Scanned(adj, m[q[0] := 2], q[1..], r)
    ensures NoDup(r.queue)
  {
    var m1 := m[q[0] := 2];
    var n := |q| - 1;
    var pushed := r.queue[n..];
    forall i, j | 0 <= i < j < |r.queue| ensures r.queue[i] != r.queue[j] {
      if j < n {
        assert r.queue[i] == q[1..][i] == q[i + 1];
        assert r.queue[j] == q[1..][j] == q[j + 1];
      } else if i < n {
        assert r.queue[i] == q[1..][i] == q[i + 1];
        assert q[i + 1] != q[0];
        assert m1[r.queue[i]] == 1;
        assert m1[r.queue[j]] == 0;
      } else {
        assert r.queue[i] == pushed[i - n] && r.queue[j] == pushed[j - n];
      }
    }
  }

  lemma PopMarkedQueued(m: seq<int>, q: seq<int>, adj: seq<int>, r: Snapshot)
    requires MarkedQueued(m, q) && q != [] && (forall k :: 0 <= k < |q| ==> 0 <= q[k] < |m|)
    requires Scanned(adj, m[q[0] := 2], q[1..], r)
    ensures MarkedQueued(r.marked, r.queue)
  {
    var m1 := m[q[0] := 2];
    var n := |q| - 1;
    var pushed := r.queue[n..];
    forall v | 0 <= v < |r.marked| && r.marked[v] == 1 ensures v in r.queue {
      if m1[v] == 1 {
        var k :| 0 <= k < |q| && q[k] == v;
        assert k != 0;
        assert r.queue[k - 1] == q[1..][k - 1] == v;
      } else {
        var k :| 0 <= k < |pushed| && pushed[k] == v;
        assert r.queue[n + k] == v;
      }
    }
  }

  /** Everything the scan marks is a neighbour of the reachable vertex `node`. */
  lemma PopKeepsReachable(g: seq<seq<int>>, m: seq<int>, s: int, node: int, q1: seq<int>, r: Snapshot)
    requires |m| == |g| && 0 <= node < |g| && MarkedReachable(g, m, s) && Reachable(g, s, node)
    requires Scanned(g[node], m[node := 2], q1, r)
    ensures MarkedReachable(g, r.marked, s)
  {
    var m1 := m[node := 2];
    forall v | 0 <= v < |r.marked| && r.marked[v] != 0 ensures Reachable(g, s, v) {
      if m1[v] == 0 {
        var k :| 0 <= k < |r.queue[|q1|..]| && r.queue[|q1|..][k] == v;
        assert r.queue[|q1| + k] == v;
        ReachableStep(g, s, node, v);
      }
    }
  }

  /** The popped vertex becomes processed only once all its neighbours are marked. */
  lemma PopKeepsClosed(g: seq<seq<int>>, m: seq<int>, node: int, q1: seq<int>, r: Snapshot)
    requires |m| == |g| && WellFormed(g) && 0 <= node < |g| && ProcessedClosed(g, m)
    requires Scanned(g[node], m[node := 2], q1, r)
    ensures ProcessedClosed(g, r.marked)
  {
    forall v, j | 0 <= v < |r.marked| && v < |g| && r.marked[v] == 2 && 0 <= j < |g[v]|
      ensures 0 <= g[v][j] < |r.marked| && r.marked[g[v][j]] != 0
    {
      assert InRange(g, g[v]);
      if v != node {
        assert m[v] == 2;
      }
    }
  }

  /** The vertices the scan pushes were unseen, so none of them was pushed before. */
  lemma PopKeepsPushedOnce(m: seq<int>, enq: seq<int>, node: int, adj: seq<int>, q1: seq<int>, r: Snapshot)
    requires 0 <= node < |m| && m[node] != 0 && PushedOnce(m, enq)
    requires Scanned(adj, m[node := 2], q1, r)
    ensures PushedOnce(r.marked, enq + r.queue[|q1|..])
  {
    var m1 := m[node := 2];
    var pushed := r.queue[|q1|..];
    var enq2 := enq + pushed;
    forall k | 0 <= k < |enq2| ensures 0 <= enq2[k] < |r.marked| {
      if k >= |enq| {
        assert enq2[k] == r.queue[|q1| + k - |enq|];
      }
    }
    forall i, j | 0 <= i < j < |enq2| ensures enq2[i] != enq2[j] {
      if j >= |enq| {
        var w := enq2[j];
        assert w == r.queue[|q1| + j - |enq|];
        assert m1[w] == 0;
        if i < |enq| {
          assert enq2[i] == enq[i] && enq[i] in enq;
        } else {
          assert enq2[i] == r.queue[|q1| + i - |enq|];
        }
      }
    }
    forall v | 0 <= v < |r.marked| ensures r.marked[v] != 0 <==> v in enq2 {
      if v in pushed {
        var k :| 0 <= k < |pushed| && pushed[k] == v;
        assert r.queue[|q1| + k] == v;
      }
    }
  }

  /** Before the first pop the search is in the invariant's shape, once the start
      vertex, pushed without a marker, is read as marked queued. */
  lemma StartInv(g: seq<seq<int>>, m: seq<int>, s: int)
    requires WellFormed(g) && |m| == |g| && 0 <= s < |g| && AllZero(m)
    ensures BfsInv(g, m[s := 1], [s], s, [s])
  {
    ReachableStart(g, s);
  }

  /** The first pop, of the start vertex from an all-unseen array, sets up the invariant. */
  lemma FirstPop(g: seq<seq<int>>, m: seq<int>, s: int)
    requires WellFormed(g) && |m| == |g| && 0 <= s < |g| && AllZero(m)
    ensures var r := Pop(g, Snapshot(m, [s]));
      BfsInv(g, r.marked, r.queue, s, [s] + r.queue)
  {
    StartInv(g, m, s);
    assert m[s := 1][s := 2] == m[s := 2];
    assert Pop(g, Snapshot(m[s := 1], [s])) == Pop(g, Snapshot(m, [s]));
    LaterPop(g, m[s := 1], [s], s, [s]);
    var r := Pop(g, Snapshot(m, [s]));
    assert r.queue[0..] == r.queue;
  }

  /** A later pop keeps the invariant; `enq` grows by what the scan pushed. */
  lemma LaterPop(g: seq<seq<int>>, m: seq<int>, q: seq<int>, s: int, enq: seq<int>)
    requires BfsInv(g, m, q, s, enq) && q != []
    ensures var r := Pop(g, Snapshot(m, q));
      BfsInv(g, r.marked, r.queue, s, enq + r.queue[|q| - 1..])
  {
    var node := q[0];
    assert InRange(g, g[node]);
    var r := Pop(g, Snapshot(m, q));
    ScanScanned(g[node], m[node := 2], q[1..]);
    PopKeepsQueue(m, q, g[node], r);
    PopKeepsReachable(g, m, s, node, q[1..], r);
    PopKeepsClosed(g, m, node, q[1..], r);
    PopKeepsPushedOnce(m, enq, node, g[node], q[1..], r);
  }

  /** The state of a search that started from an empty queue and an all-unseen
      array: before the first pop only `s` is queued, after it the invariant holds. */
  ghost predicate SearchState(g: seq<seq<int>>, m: seq<int>, q: seq<int>, s: int, enq: seq<int>, first: bool)
  {
    if first then
      && WellFormed(g) && |m| == |g| && 0 <= s < |g| && AllZero(m) && q == [s] && enq == [s]
    else BfsInv(g, m, q, s, enq)
  }

  /** The invariant after any pop of a search that started from a clean state. */
  lemma CleanPop(g: seq<seq<int>>, st: Snapshot, s: int, enq: seq<int>, first: bool)
    requires SearchState(g, st.marked, st.queue, s, enq, first) && st.queue != []
    ensures BfsInv(g, Pop(g, st).marked, Pop(g, st).queue, s, enq + Pop(g, st).queue[|st.queue| - 1..])
    ensures SearchState(g, Pop(g, st).marked, Pop(g, st).queue, s, enq + Pop(g, st).queue[|st.queue| - 1..], false)
  {
    if first {
      FirstPop(g, st.marked, s);
      assert Pop(g, st).queue[0..] == Pop(g, st).queue;
    } else {
      LaterPop(g, st.marked, st.queue, s, enq);
    }
  }

  /** When the queue runs empty, the processed vertices are exactly the reachable ones
      and everything else is unseen; `enq` lists exactly the reachable vertices. */
  lemma BfsDone(g: seq<seq<int>>, m: seq<int>, s: int, enq: seq<int>)
    requires BfsInv(g, m, [], s, enq)
    ensures forall v :: 0 <= v < |m| ==> m[v] == (if Reachable(g, s, v) then 2 else 0)
    ensures forall v :: v in enq <==> 0 <= v < |g| && Reachable(g, s, v)
  {
    assert forall v :: 0 <= v < |m| && m[v] != 0 ==> m[v] == 2;
    forall v | 0 <= v < |m| ensures m[v] == (if Reachable(g, s, v) then 2 else 0) {
      if Reachable(g, s, v) {
        var path :| IsWalk(g, path) && path[0] == s && path[|path| - 1] == v;
        ClosedHoldsWalk(g, m, s, path);
      }
    }
  }

  // ---------------------------------------------------------------------------
  // The program's global state

  /** The globals `graph`, `qq` and `marked`; the queue's front is `qq[0]` and
      `push` appends. */
  class BfsState {
    var graph: seq<seq<int>>
    var qq: seq<int>
    const marked: array<int>
    /** Every vertex ever appended to `qq`, in order: the push history. */
    ghost var pushes: seq<int>

    ghost predicate Valid()
      reads this, marked
    {
      && marked.Length == |graph|
      && WellFormed(graph)
      && InRange(graph, qq)
      && Markers(marked[..])
    }

    /** `graph.resize(nodesNum + 1); marked = new int[nodesNum + 1]();` */
    constructor (nodesNum: nat)
      ensures Valid() && fresh(marked) && qq == [] && pushes == []
      ensures |graph| == nodesNum + 1 && forall v :: 0 <= v < |graph| ==> graph[v] == []
      ensures AllZero(marked[..])
    {
      graph := seq(nodesNum + 1, _ => []);
      qq := [];
      pushes := [];
      marked := new int[nodesNum + 1](_ => 0);
    }

    /** One edge read from the input file. Both ends must be vertices: the source
        computes a bounds check and then ignores it. */
    method AddEdge(node1: int, node2: int)
      requires Valid() && 0 <= node1 < |graph| && 0 <= node2 < |graph|
      modifies this
      ensures Valid() && graph == InsertEdge(old(graph), node1, node2)
      ensures qq == old(qq) && pushes == old(pushes)
    {
      InsertEdgeUndirected(graph, node1, node2);
      graph := graph[node1 := graph[node1] + [node2]];
      graph := graph[node2 := graph[node2] + [node1]];
    }

    /** The inner `for` loop of `s_bfs` over the neighbours of `node`. */
    method ScanNeighbours(node: int)
      requires Valid() && 0 <= node < |graph|
      modifies this, marked
      ensures graph == old(graph)
      ensures Snapshot(marked[..], qq) == Scan(graph[node], Snapshot(old(marked[..]), old(qq)))
      ensures |old(qq)| <= |qq| && pushes == old(pushes) + qq[|old(qq)|..]
    {
      assert InRange(graph, graph[node]);
      ghost var start := Snapshot(marked[..], qq);
      for i := 0 to |graph[node]|
        invariant graph == old(graph) && marked.Length == |graph|
        invariant Snapshot(marked[..], qq) == Scan(graph[node][..i], start)
        invariant |old(qq)| <= |qq| && pushes == old(pushes) + qq[|old(qq)|..]
      {
        var w := graph[node][i];
        assert graph[node][..i + 1][..i] == graph[node][..i];
        if marked[w] == 0 {
          assert (qq + [w])[|old(qq)|..] == qq[|old(qq)|..] + [w];
          qq := qq + [w];
          pushes := pushes + [w];
          marked[w] := 1;
        }
      }
      assert graph[node][..|graph[node]|] == graph[node];
    }

    /** One iteration of the `while` loop of `s_bfs`: pop the front, mark it
        processed, push its unseen neighbours. */
    method PopFront()
      requires Valid() && qq != []
      modifies this, marked
      ensures graph == old(graph) && marked.Length == |graph|
      ensures Snapshot(marked[..], qq) == Pop(graph, Snapshot(old(marked[..]), old(qq)))
      ensures |old(qq)| - 1 <= |qq| && pushes == old(pushes) + qq[|old(qq)| - 1..]
    {
      var node := qq[0];
      qq := qq[1..];
      marked[node] := 2;
      ScanNeighbours(node);
    }

    /** `s_bfs(startNode)`. On any valid state it terminates with an empty queue, leaves
        the graph alone and only raises markers. Started from an empty queue and an
        all-unseen array, it marks exactly the vertices reachable from `startNode` as
        processed, leaves every other vertex unseen, and pushes each reachable vertex
        exactly once and nothing else: the pushes it adds to `pushes`. */
    method SBfs(startNode: int)
      requires Valid() && 0 <= startNode < |graph|
      modifies this, marked
      ensures Valid() && qq == [] && graph == old(graph)
      ensures forall v :: 0 <= v < marked.Length ==> old(marked[v]) <= marked[v]
      ensures |old(pushes)| <= |pushes| && pushes[..|old(pushes)|] == old(pushes)
      ensures old(qq) == [] && AllZero(old(marked[..])) ==>
        && (forall v :: 0 <= v < marked.Length ==>
          marked[v] == (if Reachable(graph, startNode, v) then 2 else 0))
        && NoDup(pushes[|old(pushes)|..])
        && (forall v :: v in pushes[|old(pushes)|..] <==> 0 <= v < |graph| && Reachable(graph, startNode, v))
    {
      ghost var initial := marked[..];
      ghost var clean := qq == [] && AllZero(marked[..]);
      ghost var first := true;
      qq := qq + [startNode];
      pushes := pushes + [startNode];
      ghost var enqueued := [startNode];
      while qq != []
        invariant Valid() && graph == old(graph)
        invariant pushes == old(pushes) + enqueued
        invariant Raised(initial, marked[..])
        invariant clean ==> SearchState(graph, marked[..], qq, startNode, enqueued, first)
        decreases CountZeros(marked[..]), |qq|
      {
        ghost var before := Snapshot(marked[..], qq);
        ghost var pushed := pushes;
        PopFront();
        ghost var added := qq[|before.queue| - 1..];
        assert pushes == pushed + added;
        assert pushes == old(pushes) + (enqueued + added);
        PopMeasure(graph, before);
        PopValid(graph, before);
        if clean {
          CleanPop(graph, before, startNode, enqueued, first);
        }
        enqueued := enqueued + added;
        first := false;
      }
      assert pushes[|old(pushes)|..] == enqueued && pushes[..|old(pushes)|] == old(pushes);
      if clean {
        BfsDone(graph, marked[..], startNode, enqueued);
      }
    }
  }

  /** Each pop either uses up unseen vertices or shortens the queue. */
  lemma PopMeasure(g: seq<seq<int>>, st: Snapshot)
    requires WellFormed(g) && |st.marked| == |g| && InRange(g, st.queue) && st.queue != []
    ensures var r := Pop(g, st);
      CountZeros(r.marked) < CountZeros(st.marked)
      || (CountZeros(r.marked) == CountZeros(st.marked) && |r.queue| < |st.queue|)
  {
    var node := st.queue[0];
    assert InRange(g, g[node]);
    CountZerosUpdate(st.marked, node, 2);
    ScanCount(g[node], Snapshot(st.marked[node := 2], st.queue[1..]));
  }

  /** A pop keeps markers in 0..2 and the queue within the graph. */
  lemma PopValid(g: seq<seq<int>>, st: Snapshot)
    requires WellFormed(g) && |st.marked| == |g| && InRange(g, st.queue) && st.queue != []
    requires Markers(st.marked)
    ensures |Pop(g, st).marked| == |g| && Markers(Pop(g, st).marked) && InRange(g, Pop(g, st).queue)
    ensures Raised(st.marked, Pop(g, st).marked)
  {
    var node := st.queue[0];
    assert InRange(g, g[node]);
    var m1 := st.marked[node := 2];
    var q1 := st.queue[1..];
    ScanScanned(g[node], m1, q1);
    var r := Pop(g, st);
    forall k | 0 <= k < |r.queue| ensures 0 <= r.queue[k] < |g| {
      if k < |q1| {
        assert r.queue[k] == st.queue[k + 1];
      }
    }
  }
}
