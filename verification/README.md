# FunWithGraphs cluster simulation, modelled in Dafny

This project models the two coupled state machines of the FunWithGraphs leader-election demo.

- `graph.dfy`, module `Topology`, models the `Graph` topology store of `graph.py`. It holds the node set, integer positions on a square canvas, node colours, the undirected edge set and the edge colours. Edge colours are keyed by the ordered `(node1, node2)` pair the edge was inserted with. The operations are `add_node` (with the placement loop and `is_too_close`), `add_edge`, `complete_edges_for`, `change_color` with its `"all"` / `"all-X"` / single-id target strings, and `remove_node`.
- `raft.dfy`, module `Cluster`, models the `Raft` cluster controller of `raft.py`. It holds an insertion-ordered node list, an optional leader, and a topology store of canvas size 40. The operations are `add_node`, `start_election`, `kill_node`, `kill_leader`, `__leader_was_killed`, `__only_one_node` and `__pick_random_node`.
- `options.dfy` holds the `Option` type used for the leader and for the result of the placement search.

Every operation is a pure function from one state to the next. The two random choices become inputs:
- The placement point of a new node must satisfy `Topology.Placeable`. That predicate means both coordinates lie in `[1, size-1]` and the squared distance to every placed node is at least 9. `math.sqrt(d) < 3` holds for an integer `d` exactly when `d < 9`, so squared distances replace square roots.
- The index `choice` is the one `random.choice` draws when an election picks its winner.

The placement loop itself is modelled by `Topology.Allocate` over a finite prefix of the sample stream. It returns the first sample that keeps the minimum distance.

The store invariant is `Topology.Valid`:
- positions and colours are keyed by exactly the node set;
- every edge joins present nodes;
- the edge set is exactly the set of unordered pairs named by the edge-colour keys;
- positions lie on the canvas and are pairwise at least 3 apart.

The controller invariant is `Cluster.Inv`:
- the list is duplicate-free and has the same members as the store's node set;
- the leader is absent or listed;
- two or more nodes always have a leader;
- the store is valid, a complete mesh, and of size 40.

With ids that contain no `-`, `Cluster.Painted` is also preserved. It says the leader is blue and every other node is gray.

Facts about the code that the model keeps as written:
- The `__only_one_node` helper (raft.py:102-104) would promote a sole survivor to leader. The test guarding it, `self.nodes == 1` (raft.py:66), compares a list with an int, so it is never true. Killing the leader of a two-node cluster therefore leaves one node and no leader.
- `add_node` runs an election whenever it makes the list exactly two long (raft.py:31-32). That also happens when a node is added to a cluster whose other node survived a kill.
- `add_edge` (graph.py:94-99) accepts `node1 == node2`, which gives a self-loop edge. Re-adding an existing edge sets that key's colour to black again. `Cluster` only ever joins distinct nodes.

## Model

| member | source | states |
|---|---|---|
| Topology.Empty | graph.py:12-16 | A new store has no nodes or edges and satisfies the store invariant. |
| Topology.DefaultGraph | graph.py:7-16 | `Graph()` without a size gives an empty, valid store on the 20-unit canvas. |
| Topology.IsTooClose | graph.py:85-92 | The scan reports "too close" exactly when some placed position is at squared distance below 9 from the point. |
| Topology.Allocate | graph.py:75-79 | The placement loop accepts the first sample that keeps the minimum distance to every placed node. Every earlier sample is rejected. None means every sample in the prefix is rejected. |
| Topology.AllocateIsPlaceable | graph.py:75-79 | Given in-canvas samples, the accepted point is a valid placement. Whenever some sample fits, a point is accepted. |
| Topology.AddNode | graph.py:66-83 | A present id changes nothing. A new id is added with colour gray at an in-canvas position that keeps the minimum distance to every existing node. Other nodes' positions and colours and all edges are untouched. |
| Topology.AddNodeKeepsValid | graph.py:78-82 | Adding a node preserves the store invariant, including the pairwise minimum distance. |
| Topology.AddNodeIdempotent | graph.py:68-69 | Adding the same id a second time leaves the store as the first addition left it. |
| Topology.RemoveUndoesAdd | graph.py:131-139 | Removing a node that was just added restores the previous store exactly. |
| Topology.AddEdge | graph.py:94-101 | The call is a no-op unless both endpoints are present. Otherwise the undirected edge exists afterwards and its ordered key is coloured black. Nodes, positions and node colours are unchanged. Equal endpoints are allowed. |
| Topology.AddEdgeKeepsValid | graph.py:94-99 | Adding an edge preserves the store invariant. |
| Topology.CompleteEdgesFor | graph.py:103-108 | Afterwards the id is adjacent to every other present node, with each `(other, id)` key coloured black. Only edges containing the id are added. Nodes, positions and colours are unchanged. A missing id changes nothing. |
| Topology.CompleteEdgesForLoop | graph.py:103-108 | Running the loop of single `add_edge` calls, in any iteration order, gives exactly the closed form above. |
| Topology.CompleteEdgesForKeepsValid | graph.py:103-108 | Meshing a node preserves the store invariant. |
| Topology.FirstField | graph.py:120 | Returns the prefix of the text before its first `-`. The prefix contains no `-`. |
| Topology.FirstFieldWhole | graph.py:120 | The first field is the whole text exactly when the text has no `-`. |
| Topology.ParseTarget | graph.py:112-127 | A target is "every node" exactly for `"all"`, and "all but one" exactly for other strings that start with `"all-"`. The excluded id is the text after `"all-"` up to the next `-` or the end, and contains no `-`. Any other string names itself as a single node. |
| Topology.TargetRoundTrip | graph.py:112-127 | A target string parses back to its target exactly when the target is well formed: an excluded id contains no `-`, and a single id is neither `"all"` nor begins with `"all-"`. `"all"` is tested first, then the `"all-"` prefix, and the excluded id is the field `split('-')[1]`. |
| Topology.ExcludedIdRoundTrip | graph.py:118-120 | `"all-" + w` excludes exactly `w` if and only if `w` contains no `-`. |
| Topology.PlainIdIsSingle | graph.py:112-128 | An id without `-` other than `"all"` is read as that single node. |
| Topology.Recolor | graph.py:110-129 | `All` colours every node. `AllExcept(x)` colours every node but `x`. `Single(x)` colours `x` if present. Nodes the target does not name keep their colour, and nothing but the colour map changes. |
| Topology.ChangeColor | graph.py:110-129 | For `"all"`, every node gets the colour. For `"all-X"`, every node except `X = split('-')[1]` gets it and `X` keeps its colour. For any other string, only that node changes, and an absent id is a no-op. Nodes, positions and edges are never touched. |
| Topology.ChangeColorKeepsValid | graph.py:110-129 | Recolouring preserves the store invariant. |
| Topology.RemoveNode | graph.py:131-140 | An absent id is a no-op. Otherwise the node, its position, its colour and every edge and edge-colour entry containing it are gone. All other nodes keep their positions and colours, and all other edges remain. |
| Topology.RemoveNodeKeepsValid | graph.py:131-139 | Removing a node preserves the store invariant, including edge validity. |
| Cluster.Init | raft.py:7-10 | A new controller has an empty list, no leader and an empty store of size 40, and satisfies the invariant. |
| Cluster.IndexOf | raft.py:61 | Returns the first position of a listed id. |
| Cluster.RemoveFirst | raft.py:61 | `list.remove` deletes exactly the first occurrence and keeps the order of the rest. |
| Cluster.RemoveFirstCount | raft.py:61 | Removing a listed id shortens the list by one and drops exactly one occurrence from its multiset. |
| Cluster.RemoveFirstNoDup | raft.py:61 | On a duplicate-free list the removed id disappears, every other id stays, and the list stays duplicate-free. |
| Cluster.PickRandomNode | raft.py:106-108 | The random pick is a listed node. |
| Cluster.StartElection | raft.py:34-50 | With fewer than 2 nodes nothing changes. Otherwise the node at the drawn index becomes the leader. The list and everything in the store except colours are unchanged. |
| Cluster.StartElectionKeepsInv | raft.py:38-45 | An election preserves the controller invariant. |
| Cluster.StartElectionPaints | raft.py:41-50 | With ids without `-`, an election leaves the leader blue and every other node gray. |
| Cluster.AddNode | raft.py:19-32 | A listed id changes nothing. Otherwise the id is appended and is adjacent to every other node. For an id new to the store, the store gains exactly that node, its position, and the edges and black edge keys to the present nodes, and nothing else there changes. When the list has just reached two nodes an election runs, and the leader is the node at the drawn index of the new list. Otherwise the leader is unchanged and the new node is gray. |
| Cluster.JoinedStore | raft.py:26-27 | Placing and meshing a node new to the store adds exactly that node, its position, its edges and their black keys, and leaves the other positions, edges and keys alone. |
| Cluster.AddNodeKeepsInv | raft.py:19-32 | Adding a node preserves the controller invariant: no duplicates, list mirrors the store, complete mesh without self-loops, leader listed, two or more nodes led. |
| Cluster.SoundEdgesArePairs | raft.py:26-27 | Under the invariant, a set of ids is an edge of the store exactly when it is a two-element set of present nodes, so the cluster is a complete graph. |
| Cluster.AddNodeKeepsPainted | raft.py:26-32 | With ids without `-`, adding a node keeps the leader blue and the others gray. |
| Cluster.SecondNodeElects | raft.py:29-32 | Adding two distinct nodes to a cluster with an empty list, such as a new controller, lists them in order and elects the one at the drawn index. |
| Cluster.JoinsSingleNode | raft.py:29-32 | Adding a new node to any one-node cluster runs an election, which the node at the drawn index of the two-node list wins. This also covers a cluster whose other node was killed. |
| Cluster.LeaderWasKilled | raft.py:97-100 | The leader is cleared and re-elected among the listed nodes when two or more remain. With fewer, it stays cleared. |
| Cluster.OnlyOneNode | raft.py:102-104 | The first listed node becomes the leader and, when it is in the store, is coloured blue. Only colours change in the store. |
| Cluster.ListEqualsInt | raft.py:66 | The test `self.nodes == 1` compares a list with an int, and such values never compare equal in Python, so the test is false for every list. |
| Cluster.KillNode | raft.py:52-67 | An unlisted id or a last node is a no-op, so a non-empty cluster never empties. Otherwise the first occurrence of the id leaves the list and the survivors keep their order, and the node leaves the store with its position, colour and edges while the other positions stay. Killing a non-leader keeps the leader and changes the store exactly as `remove_node` does. Killing the leader changes only colours beyond that, elects a survivor with 3 or more nodes, and leaves no leader with 2 nodes. |
| Cluster.KillNodeKeepsInv | raft.py:52-67 | Killing a node preserves the controller invariant. |
| Cluster.LeaderWasKilledPaints | raft.py:97-100 | Once the leader is gone and the rest are gray, clearing the leader and re-electing leaves the new leader, if any, blue and every other node gray. |
| Cluster.KillNodeKeepsPainted | raft.py:52-67 | With ids without `-`, killing a node keeps the leader blue and the others gray, including the leaderless survivor. |
| Cluster.LeaderLossRecovery | raft.py:60-64 | Killing the leader of 3 or more nodes removes it from the list and elects one of the survivors. |
| Cluster.KillLeader | raft.py:69-75 | With no leader, or the falsy empty-string leader, nothing changes. The call never empties a non-empty cluster. |
| Cluster.KillLeaderIsKillNode | raft.py:72-75 | With a truthy leader, `kill_leader` has exactly the effect of `kill_node(leader)`. |
| Cluster.KillLeaderKeepsInv | raft.py:69-75 | Killing the leader preserves the controller invariant. |
| Cluster.KillLeaderKeepsPainted | raft.py:69-75 | With ids without `-`, killing the leader preserves the colouring. |
| Cluster.SoleSurvivorNotPromoted | raft.py:63-67 | As written, killing the leader of a two-node cluster leaves one node and no leader. |
| Cluster.KillNodeIntended | raft.py:66-67 | With the intended `len(nodes) == 1` test, killing a node of a two-node cluster always leaves a listed leader. When the list is duplicate-free and mirrors the store, that leader is coloured blue. |
| Cluster.KillNodeIntendedKeepsLeader | raft.py:63-67 | With the intended test, killing any listed node of a valid cluster of two or more removes it and leaves a listed leader. |
| Cluster.HyphenatedWinnerTurnsGray | raft.py:49-50 | As written, an election won by an id containing `-` colours the new leader gray. |
| Cluster.LoserStaysYellow | raft.py:41-50 | As written, when the text before a hyphenated winner's first `-` is itself a listed node, that node is spared by `"all-<winner>"` and stays yellow. |
| Cluster.StartElectionIntended | raft.py:41-50 | The election with tagged targets gives a listed leader and changes nothing but colours. |
| Cluster.StartElectionIntendedPaints | raft.py:49-50 | With tagged targets, the leader is blue and every other node gray, for any ids. |

## Left out

- Rendering is not modelled: `update`, `__update_labels` and the matplotlib figure set-up. They only draw and return nothing.
- `wait`, `sleep` and the delays in `start_election` and `kill_leader` are not modelled. They affect timing only, so they are treated as no-ops.
- The `update` flag of `add_edge` is not modelled, because it only decides whether to redraw.
- `execute_commands` is not modelled: reading the command file, splitting lines and dispatching through the `commands` table. Arity errors there surface as Python exceptions.
- `execute_random`, `__get_random_command` and `__method_needs_argument` are not modelled. They are a weighted-random driver.
- `print` calls are not modelled.
- Randomness is not modelled. The placement point and the election index are inputs constrained by their preconditions.
- Topology.Allocate: termination of the unbounded re-sampling loop is not modelled. The search runs over a finite prefix of the sample stream, and `add_node` takes the accepted point as an input.
- Topology.Empty: a canvas smaller than 2 is accepted at construction, as in the source. Such a store can get no nodes, because no point is placeable; the source would raise in `randint` instead.
- Cluster.OnlyOneNode: the source would raise `IndexError` on an empty list. The model returns the state unchanged instead. No caller can reach that case.
- Cluster.StartElectionPaints: the blue-leader, gray-rest colouring is proved only for ids without `-`. For other ids it does not hold; see Findings.

## Findings

| source | as written | input that shows it | evidently intended | confidence | as-written member | corrected member |
|---|---|---|---|---|---|---|
| raft.py:66 | `if self.nodes == 1` compares a list with an int and is always false, so `__only_one_node` never runs | nodes `[a, b]` with leader `a`, then `kill_node(a)`: nodes become `[b]` and the leader becomes `None` | `len(self.nodes) == 1`, so the sole survivor is promoted to leader | high, not executed | Cluster.SoleSurvivorNotPromoted | Cluster.KillNodeIntended |
| raft.py:50 | `change_color(f"all-{winner}", "gray")` excludes `winner.split('-')[0]`, not the winner. The winner ends gray, and a listed node named by that prefix keeps the election's yellow, as `Cluster.LoserStaysYellow` shows | nodes `["x", "x-1"]` with winner `"x-1"`: the exclusion names `"x"`, so the leader `"x-1"` ends gray and `"x"` stays yellow | exclude the winner itself, so the leader stays blue | medium, not executed | Cluster.HyphenatedWinnerTurnsGray | Cluster.StartElectionIntended |

The controller's main operations keep the code as written, because that is what the program does. The corrected members and their lemmas show the intended behaviour side by side.
