# Parallel BFS toolkit — a Dafny model

This project models the sequential core of a small repository with three programs. Two are C# programs that build a labelled binary tree and then mark every node of it as visited:

- one sends subtrees to MPI worker ranks;
- one fans the children out to parallel tasks.

The third is a C++ program that runs a queue-based breadth-first search (BFS) over adjacency lists.

The model has five modules:

- `NodeTree` (`tree.dfy`) models the `NodeTree` class both C# programs share: `AddChildren`, the `DeepNextChildren` generator and the two `ToString` overloads.
  - A tree is a value (`datatype Node`), because every node is owned by exactly one parent.
  - A C# reference to a node inside the tree is a `Path`, the child indices that lead to it. Appending a child never shifts an index, so a path keeps naming the same node, just as the reference does.
  - The text renderings are sequences of `Line` tokens and line breaks; the exact characters are not modelled.
- `Generate` (`generate.dfy`) models `GenerateTree` in both of its versions.
  - The two versions differ only in their guard: the MPI copy's `if` has no braces, while the task-parallel copy throws.
  - The `while` loop and its inner `foreach` are methods with loop invariants.
  - The tree they build from an empty root is characterised completely. It is the perfect binary tree `Heap(1, h)` in heap numbering: the children of label `k` are `2k` and `2k+1`, and `h` is the least number of levels at which the counter reaches `CountOfVertex`.
- `Visit` (`visit.dfy`) models `VisiteDeep` and `VisiteDeepP`. Both are methods proved to produce `SetVisited(n, flag)`: the same tree with every flag set.
- `Coordinator` (`coordinator.dfy`) models rank 0 of the MPI program:
  - the parameter check (`CV > 30`, 2, 3, 5 or 9 processes);
  - the fixed partition table of `switch (comm.Size)`, proved to be one full level of the tree, disjoint and covering;
  - the gather in ascending rank order, with `VisiteDeep(true)` as each worker's step.
- `Bfs` (`bfs.dfy`) models the C++ globals `graph`, `qq` and `marked`.
  - They become a class, with `s_init`'s allocation as its constructor and the undirected edge insertion as `AddEdge`.
  - `s_bfs` is `SBfs`, a `while` loop whose body is `PopFront`, with the inner `for` loop in `ScanNeighbours`.
  - A ghost field `pushes` records every vertex appended to `qq`.
  - From an empty queue and an all-zero `marked`, `SBfs` marks exactly the reachable vertices with 2 and leaves the rest at 0. It pushes each reachable vertex exactly once and nothing else.

Starting from a root without children, the generator expands the whole deepest level on every pass. The result is then a perfect tree with all leaves at depth `h` and `2^(h+1) − 2` nodes below the root, which `GrownShape` and `GrownSize` state.

Only the MPI copy accepts a root that already has children. For such a root the result need not be perfect: the single child "2" is appended, and the next snapshot can hold an older node that already has children. That node then ends with three or more children, and the new labels can repeat labels already in the tree. For example, take a root whose only child is 5, where 5 has one child 6, and let `CountOfVertex` be 3: node 5 ends with children 6, 3, 4; node 2 receives 5 and 6; so the labels 5 and 6 each occur twice.

Labels are integers: the counter value a node was created with. The root's name is whatever the caller gives it (`MainName` = 1 stands for `"main"` on rank 0).

## Model

| member | source | states |
|---|---|---|
| NodeTree.NewNode | MPI_BFC_dotNET/Program.cs:18-22 | a new node carries the given name, is not visited, and is a tree of exactly one node |
| NodeTree.AddChildren | MPI_BFC_dotNET/Program.cs:24-29 | a null child leaves the node unchanged; otherwise the child becomes the last child, the earlier children stay in place, and name and flag never change |
| NodeTree.AddChildAt | Parallel_BFS_dotNET/Program.cs:62-63 | `item.AddChildren(c)` on the node that path `p` leads to: the root keeps its name and flag, and only an append at the root itself lengthens the root's list |
| NodeTree.AddChildAtTarget | Parallel_BFS_dotNET/Program.cs:22-27 | `item.AddChildren(c)` through a reference deep in the tree gives exactly that node `c` as its new last child; the root keeps its name and flag |
| NodeTree.AddChildAtKeepsPath | Parallel_BFS_dotNET/Program.cs:22-27 | appending a child anywhere never invalidates a reference to any node |
| NodeTree.AddChildAtFrame | Parallel_BFS_dotNET/Program.cs:22-27 | after `item.AddChildren(c)` through a reference, every other reference still leads to a node with the same name and flag; a reference that does not name `item` or one of its ancestors leads to exactly the same subtree as before |
| NodeTree.AddChildAtRootList | Parallel_BFS_dotNET/Program.cs:22-27 | appending below the root keeps the root's own children list: same length, same names |
| NodeTree.AddChildAtSize | Parallel_BFS_dotNET/Program.cs:22-27 | appending a subtree adds exactly its number of nodes to the tree |
| NodeTree.DeepNextChildren | MPI_BFC_dotNET/Program.cs:39-46 | with `MinChildrens` of 1 or more no child is lost: each child yields itself or its own non-empty frontier, so at least one item per child comes out |
| NodeTree.FrontierSound | MPI_BFC_dotNET/Program.cs:39-46 | every node `DeepNextChildren` yields is a frontier node: a proper descendant with fewer than two children whose ancestors all have two or more |
| NodeTree.FrontierComplete | MPI_BFC_dotNET/Program.cs:39-46 | every frontier node is yielded |
| NodeTree.DeepNextChildrenIsFrontier | Parallel_BFS_dotNET/Program.cs:36-43 | a node is yielded if and only if it is a frontier node |
| NodeTree.FrontierLeftToRight | Parallel_BFS_dotNET/Program.cs:36-43 | nodes are yielded in left-to-right order |
| NodeTree.FrontierDistinct | Parallel_BFS_dotNET/Program.cs:36-43 | no node is yielded twice |
| NodeTree.FrontierNonEmpty | Parallel_BFS_dotNET/Program.cs:36-43 | a node with children yields at least one node, for any `MinChildrens` of 1 or more |
| NodeTree.ToString | MPI_BFC_dotNET/Program.cs:70-77 | `ToString()` is a single line without a line end |
| NodeTree.DetailsFrom | MPI_BFC_dotNET/Program.cs:85-87 | the loop over the children renders only nodes that have children |
| NodeTree.ToStringDetailed | MPI_BFC_dotNET/Program.cs:79-91 | `ToString(false)` is a single line without a line end; `ToString(true)` starts with `ToString()` and a line end, and every later line belongs to a node with children |
| NodeTree.DetailsFromPreOrder | Parallel_BFS_dotNET/Program.cs:84-87 | the loop over the children renders exactly the non-leaf descendants, in pre-order |
| NodeTree.ToStringDetailedPreOrder | MPI_BFC_dotNET/Program.cs:70-91 | `ToString(false)` is `ToString()`; `ToString(true)` is one ended line for the node and one for each non-leaf proper descendant, in pre-order |
| Generate.Levels | Parallel_BFS_dotNET/Program.cs:53 | the number of full levels is the least `r` at or above the current depth with `2^(r+1) - 1 >= CountOfVertex` |
| Generate.FrontierOfGrown | Parallel_BFS_dotNET/Program.cs:55-58 | the snapshot taken on a tree of `h` full levels is its whole deepest level, left to right |
| Generate.ExpandItem | Parallel_BFS_dotNET/Program.cs:62-63 | the node `item` leads to receives exactly the two new children `i + 1` and `i + 2`, after its old ones; the tree grows by two nodes, the root list is kept and every other snapshot path stays valid |
| Generate.ExpandItemGrown | Parallel_BFS_dotNET/Program.cs:60-64 | the `k`-th item of a pass on a perfect tree receives the heap labels `2(2^h + k)` and `2(2^h + k) + 1` |
| Generate.ExpandEach | Parallel_BFS_dotNET/Program.cs:60-64 | the inner loop adds two nodes per snapshot item and advances the counter by two per item; on a perfect tree of `h` levels it yields the perfect tree of `h + 1` levels |
| Generate.GrowLevels | Parallel_BFS_dotNET/Program.cs:53-65 | the `while` loop ends with the counter at or past `CountOfVertex`, one node per counter step; from a perfect tree it ends with the perfect tree of `Levels` levels |
| Generate.GenerateTreeMpi | MPI_BFC_dotNET/Program.cs:48-68 | from an empty root: the perfect heap-labelled tree of `Levels(1, CV)` levels; from a root that has children: one child named 2 is appended (the brace-less `if`), the old children keep their names, and at least `CV - 1` nodes are added |
| Generate.GenerateTreeParallel | Parallel_BFS_dotNET/Program.cs:45-67 | throws if and only if the root already has children; otherwise it builds the same perfect tree with `2^(h+1) - 1` nodes |
| Generate.GrownPaths | Parallel_BFS_dotNET/Program.cs:45-67 | the nodes of the generated tree are exactly the 0/1 paths of length at most `h` |
| Generate.GrownShape | Parallel_BFS_dotNET/Program.cs:60-64 | every node has 0 or 2 children, and a node is a leaf if and only if it is at depth `h` |
| Generate.GrownSize | Parallel_BFS_dotNET/Program.cs:45-67 | the generated tree has `2^(h+1) - 1` nodes |
| Generate.GrownLabel | Parallel_BFS_dotNET/Program.cs:62-63 | labels are given level by level, left to right: the `m`-th node of depth `d` is labelled `2^d + m`, within `2 .. 2^(h+1) - 1` |
| Generate.GrownLabelsUnique | Parallel_BFS_dotNET/Program.cs:62-63 | no two nodes carry the same label |
| Generate.GrownLabelUsed | Parallel_BFS_dotNET/Program.cs:62-63 | every counter value from 2 up to the final counter labels some node |
| Visit.SetVisited | MPI_BFC_dotNET/Program.cs:92-100 | the reference traversal changes the node's rendered line only in its flag |
| Visit.SetVisitedSpec | MPI_BFC_dotNET/Program.cs:92-100 | the reference traversal keeps every name and children list and sets every flag to `flag` |
| Visit.SetVisitedUnique | MPI_BFC_dotNET/Program.cs:92-100 | a tree of the same shape with every flag equal to `flag` is exactly that result |
| Visit.VisitIdempotent | Parallel_BFS_dotNET/Program.cs:105-115 | a subtree already all at `flag` is unchanged, and a second traversal changes nothing |
| Visit.VisiteDeep | Parallel_BFS_dotNET/Program.cs:105-115 | sets `flag` on the whole subtree and changes nothing else, including the leaf shortcut |
| Visit.VisiteDeepP | Parallel_BFS_dotNET/Program.cs:92-103 | the fan-out variant leaves the same tree as `VisiteDeep` |
| Coordinator.PartitionPaths | MPI_BFC_dotNET/Program.cs:134-159 | the `switch (comm.Size)` table sends one subtree to each rank `1 .. Size-1`, each reached by `d` steps through `Children[0]` or `Children[1]` |
| Coordinator.Graph | MPI_BFC_dotNET/Program.cs:129-130 | the tree rank 0 builds has root `"main"`, is not visited, and has `2^(h+1) - 1` nodes |
| Coordinator.PartitionIsLevel | MPI_BFC_dotNET/Program.cs:134-159 | for `Size - 1 = 2^d` workers the table lists the whole level `d` of the tree, left to right |
| Coordinator.PartitionCovers | MPI_BFC_dotNET/Program.cs:134-159 | every node at or below the partition depth lies in the subtree of exactly one rank |
| Coordinator.DeepEnough | MPI_BFC_dotNET/Program.cs:126-130 | `CV > 30` makes the generated tree at least four levels deep |
| Coordinator.PartitionSubtrees | MPI_BFC_dotNET/Program.cs:129-159 | every subtree rank 0 sends exists; the one for rank `j` is rooted at label `2^d + j - 1` and is perfect below it, including the whole graph sent when `Size` is 2 |
| Coordinator.Worker | MPI_BFC_dotNET/Program.cs:175-181 | a worker returns its subtree with the same shape and every flag set |
| Coordinator.RankZero | MPI_BFC_dotNET/Program.cs:122-173 | aborts if and only if `CV <= 30` or the process count is not 2, 3, 5 or 9; otherwise it gathers one result per rank `1 .. Size-1` in ascending order, each the traversed subtree that rank was sent |
| Bfs.InsertEdge | OpenMP_BFS_CPP/OpenMP_BFS_CPP.cpp:43-44 | `node2` is appended to `graph[node1]` and `node1` to `graph[node2]`, and no other list changes; a self-loop is appended twice |
| Bfs.InsertEdgeUndirected | OpenMP_BFS_CPP/OpenMP_BFS_CPP.cpp:39-45 | insertion keeps the lists in range and the graph undirected, and links the two ends both ways |
| Bfs.BfsState.constructor | OpenMP_BFS_CPP/OpenMP_BFS_CPP.cpp:36-37 | `nodesNum + 1` empty adjacency lists and an all-zero `marked` |
| Bfs.BfsState.AddEdge | OpenMP_BFS_CPP/OpenMP_BFS_CPP.cpp:43-44 | the global graph becomes `InsertEdge` of the old one; the queue and the markers are untouched |
| Bfs.Push | OpenMP_BFS_CPP/OpenMP_BFS_CPP.cpp:74-77 | visiting a neighbour leaves it not unseen; it is appended to the queue if and only if it was unseen, and the queue before it is kept |
| Bfs.Scan | OpenMP_BFS_CPP/OpenMP_BFS_CPP.cpp:73-78 | the scan keeps the queue it was given as a prefix and only turns markers from 0 into 1 |
| Bfs.ScanPushes | OpenMP_BFS_CPP/OpenMP_BFS_CPP.cpp:73-78 | it pushes exactly the unseen neighbours it marks, each once |
| Bfs.ScanCovers | OpenMP_BFS_CPP/OpenMP_BFS_CPP.cpp:73-78 | afterwards no neighbour is unseen |
| Bfs.ScanCount | OpenMP_BFS_CPP/OpenMP_BFS_CPP.cpp:73-78 | every push uses up one unseen vertex (the termination measure) |
| Bfs.BfsState.ScanNeighbours | OpenMP_BFS_CPP/OpenMP_BFS_CPP.cpp:73-78 | the inner loop's effect on `marked` and `qq` is `Scan`, and the push history grows by exactly what it appends to `qq` |
| Bfs.BfsState.PopFront | OpenMP_BFS_CPP/OpenMP_BFS_CPP.cpp:67-78 | one iteration pops the front, marks it 2 and scans its neighbours; the push history grows by exactly the vertices appended to `qq` |
| Bfs.Pop | OpenMP_BFS_CPP/OpenMP_BFS_CPP.cpp:67-78 | one iteration of the `while` loop marks the popped front processed (2) and keeps the rest of the queue in front of the new pushes |
| Bfs.PopMeasure | OpenMP_BFS_CPP/OpenMP_BFS_CPP.cpp:66-79 | each iteration uses up unseen vertices or shortens the queue, so the loop ends |
| Bfs.PopValid | OpenMP_BFS_CPP/OpenMP_BFS_CPP.cpp:67-78 | markers stay within 0..2 and never decrease, and the queue stays within the graph |
| Bfs.FirstPop | OpenMP_BFS_CPP/OpenMP_BFS_CPP.cpp:64-78 | popping the start vertex from an all-zero array establishes the search invariant |
| Bfs.LaterPop | OpenMP_BFS_CPP/OpenMP_BFS_CPP.cpp:66-78 | every later iteration keeps it: the queue is exactly the vertices marked 1, each once; marked vertices are reachable; processed vertices have no unseen neighbour; no vertex is pushed twice |
| Bfs.BfsDone | OpenMP_BFS_CPP/OpenMP_BFS_CPP.cpp:66 | once the queue is empty, `marked` is 2 exactly on the reachable vertices and 0 elsewhere |
| Bfs.ClosedHoldsWalk | OpenMP_BFS_CPP/OpenMP_BFS_CPP.cpp:70-78 | a set that holds the start vertex and every neighbour of its members holds every reachable vertex |
| Bfs.BfsState.SBfs | OpenMP_BFS_CPP/OpenMP_BFS_CPP.cpp:62-80 | ends with an empty queue and the graph unchanged, markers never decreasing, and the push history only extended; from an empty queue and an all-zero array, `marked[v]` is 2 if `v` is reachable from `startNode` and 0 otherwise, and the pushes of this call are duplicate-free and are exactly the reachable vertices |

## Left out

- MPI transport (`Send`, `Receive`, `Abort`), the `MPI.Environment` setup and rank ≠ 0 scheduling. A message is a value copy, and each worker's reply is its `VisiteDeep(true)` result.
- Concurrency. `Parallel.ForEach` in `VisiteDeepP` is modelled by its final effect, a loop over the children; the tasks touch disjoint subtrees. The OpenMP `p_bfs`, with its parallel regions, `single`, `barrier`, lock and shared `node`/`i`, is not modelled, and neither is its `free` of a `new[]` array.
- File and console I/O, and timing. `s_init`'s `fopen`/`fscanf`/`fclose` are not modelled; the edges it reads become calls to `AddEdge`. `display`, every `Console.WriteLine`/`cout` and the `Stopwatch`/`chrono` timing are not modelled either.
- `int.Parse(args[0])`: the vertex count is a parameter, so a parse failure is not modelled.
- Text formatting. `ToString` yields `Line` tokens (name, flag, child names) and line breaks, not the tab- and arrow-decorated characters.
- NextChildren: it only yields the children list in order, and the model reads `children` directly wherever the source iterates over it.
- NodeTree.DeepNextChildrenIsFrontier: the frontier characterisation (and `FrontierSound`, `FrontierComplete`, `FrontierLeftToRight`, `FrontierDistinct`) is proved for the default `MinChildrens = 2`, the only value any caller passes. For another top-level value only `FrontierNonEmpty` is stated; the function itself models any value.
- Generate.GenerateTreeMpi: on a root that already has children, the result is described by its root list and size only, not by its full shape. Rank 0 always passes a fresh root.
- Bfs.BfsState.SBfs: reachability is stated only for a run that starts with an empty queue and an all-zero `marked`. Other starts get the general guarantees: termination, an empty queue, the graph unchanged and monotone markers.
- Bfs.BfsState.AddEdge: out-of-range vertex ids are excluded by the precondition. The source computes a bounds check and then ignores it, so such input is undefined behaviour there.
- In-place updates of the C# trees. Trees are values and references are paths, so aliasing between trees is not modelled; the source creates none.
- 32-bit overflow of the label counter `i` is not modelled, because the integers are unbounded.
