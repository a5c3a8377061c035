/**
 Model of the cluster controller of raft.py: an insertion-ordered,
 duplicate-free list of node ids and an optional leader, driving a topology
 store of canvas size 40.

 The two random choices of the source are inputs: the placement point of a
 new node (constrained by `Topology.Placeable`) and the index `choice` that
 `random.choice` would draw when an election picks its winner. Delays,
 printing and the command driver are not part of this model.
 */
module Cluster {
  import opened Options
  import opened Topology

  const ClusterCanvasSize: int := 40
  const Yellow: Color := "yellow"
  const Blue: Color := "blue"

  datatype Raft = Raft(nodes: seq<NodeId>, leader: Option<NodeId>, graph: Graph)

  predicate NoDup(s: seq<NodeId>)
  {
    forall i, j :: 0 <= i < j < |s| ==> s[i] != s[j]
  }

  function Members(s: seq<NodeId>): set<NodeId>
  {
    set n | n in s
  }

  /** Every two distinct present nodes are joined by an edge. */
  predicate Mesh(g: Graph)
  {
    forall a, b :: a in g.nodes && b in g.nodes && a != b ==> Adjacent(g, a, b)
  }

  /** No edge joins a node to itself: with `Mesh`, the edges are exactly the
      pairs of distinct nodes. */
  predicate Loopless(g: Graph)
  {
    forall k :: k in g.edgeColors ==> k.0 != k.1
  }

  /** The list is duplicate-free and mirrors the store's node set, the leader
      is absent or listed, and the store is valid, fully meshed, free of
      self-loops and sized 40. */
  predicate Sound(r: Raft)
  {
    && NoDup(r.nodes)
    && Members(r.nodes) == r.graph.nodes
    && (r.leader.Some? ==> r.leader.value in r.nodes)
    && Valid(r.graph)
    && Mesh(r.graph)
    && Loopless(r.graph)
    && r.graph.canvasSize == ClusterCanvasSize
  }

  /** A set of two distinct ids has two elements. */
  lemma PairSize(a: NodeId, b: NodeId)
    requires a != b
    ensures |{a, b}| == 2
  {
    assert {a, b} == {a} + {b};
  }

  /** A two-element set is the pair of its elements. */
  lemma PairElements(e: set<NodeId>) returns (a: NodeId, b: NodeId)
    requires |e| == 2
    ensures a != b && e == {a, b}
  {
    a :| a in e;
    assert |e - {a}| == 1;
    b :| b in e - {a};
    PairSize(a, b);
    var rest := e - {a, b};
    assert e == rest + {a, b};
    assert |rest| == 0;
  }

  /** In a sound controller the edges are exactly the two-element sets of
      present nodes. */
  lemma SoundEdgesArePairs(r: Raft, e: Edge)
    requires Sound(r)
    ensures e in r.graph.edges <==> e <= r.graph.nodes && |e| == 2
  {
    var g := r.graph;
    if e in g.edges {
      var k :| k in g.edgeColors && EdgeOf(k) == e;
      PairSize(k.0, k.1);
    }
    if e <= g.nodes && |e| == 2 {
      var a, b := PairElements(e);
      assert Adjacent(g, a, b);
    }
  }

  /** The controller's invariant: sound, and two or more nodes always have a
      leader. */
  predicate Inv(r: Raft)
  {
    Sound(r) && (|r.nodes| >= 2 ==> r.leader.Some?)
  }

  /** No listed id contains '-', the character the "all-<id>" target splits on. */
  predicate PlainIds(r: Raft)
  {
    forall n :: n in r.nodes ==> '-' !in n
  }

  /** The colouring an election leaves: the leader blue, every other node gray. */
  predicate Painted(r: Raft)
  {
    forall n :: n in r.graph.nodes ==> n in r.graph.colors && r.graph.colors[n] == (if r.leader == Some(n) then Blue else Gray)
  }

  /** The controller as constructed (raft.py:7-10). */
  function Init(): (r: Raft)
    ensures Inv(r) && Painted(r) && PlainIds(r)
    ensures r.nodes == [] && r.leader == None
  {
    Raft([], None, Empty(ClusterCanvasSize))
  }

  /** `list.index`: the position of the first occurrence of `x`. */
  function IndexOf(s: seq<NodeId>, x: NodeId): (i: nat)
    requires x in s
    ensures i < |s| && s[i] == x && x !in s[..i]
  {
    if s[0] == x then 0
    else
      var i := IndexOf(s[1..], x);
      assert s[..i + 1] == [s[0]] + s[1..][..i];
      i + 1
  }

  /** `list.remove`: deletes the first occurrence of `x`, keeping the order of
      the rest. */
  function RemoveFirst(s: seq<NodeId>, x: NodeId): (r: seq<NodeId>)
    requires x in s
    ensures r == s[..IndexOf(s, x)] + s[IndexOf(s, x) + 1..]
  {
    if s[0] == x then
      s[1..]
    else
      var t := RemoveFirst(s[1..], x);
      var i := IndexOf(s[1..], x);
      assert s[..i + 1] == [s[0]] + s[1..][..i];
      assert s[i + 2..] == s[1..][i + 1..];
      [s[0]] + t
  }

  /** Removing a listed id drops exactly one occurrence of it. */
  lemma {:induction false} RemoveFirstCount(s: seq<NodeId>, x: NodeId)
    requires x in s
    ensures |RemoveFirst(s, x)| == |s| - 1
    ensures multiset(RemoveFirst(s, x)) == multiset(s) - multiset{x}
  {
    assert s == [s[0]] + s[1..];
    if s[0] != x {
      RemoveFirstCount(s[1..], x);
      assert RemoveFirst(s, x) == [s[0]] + RemoveFirst(s[1..], x);
    }
  }

  /** On a duplicate-free list the removed id is gone, every other id stays,
      and the rest remains duplicate-free. */
  lemma {:induction false} RemoveFirstNoDup(s: seq<NodeId>, x: NodeId)
    requires x in s && NoDup(s)
    ensures NoDup(RemoveFirst(s, x))
    ensures Members(RemoveFirst(s, x)) == Members(s) - {x}
  {
    var tail := s[1..];
    assert NoDup(tail) by {
      forall i, j | 0 <= i < j < |tail| ensures tail[i] != tail[j] {
        assert tail[i] == s[i + 1] && tail[j] == s[j + 1];
      }
    }
    assert s[0] !in tail by {
      forall j | 0 <= j < |tail| ensures tail[j] != s[0] {
        assert tail[j] == s[j + 1];
      }
    }
    assert Members(s) == {s[0]} + Members(tail) by {
      assert s == [s[0]] + tail;
    }
    if s[0] != x {
      RemoveFirstNoDup(tail, x);
      var t := RemoveFirst(tail, x);
      assert RemoveFirst(s, x) == [s[0]] + t;
      assert Members([s[0]] + t) == {s[0]} + Members(t);
      assert s[0] !in t by {
        assert s[0] !in Members(t);
      }
    }
  }

  /** `__pick_random_node`: `random.choice` over the list, the drawn index given. */
  function PickRandomNode(nodes: seq<NodeId>, choice: nat): (w: NodeId)
    requires choice < |nodes|
    ensures w in nodes
  {
    nodes[choice]
  }

  /** `start_election`: with two or more nodes, everyone turns yellow, the
      picked winner becomes leader and is coloured blue, then every node but
      the one "all-<winner>" excludes is coloured gray. */
  function StartElection(r: Raft, choice: nat): (r': Raft)
    requires |r.nodes| >= 2 ==> choice < |r.nodes|
    ensures |r.nodes| < 2 ==> r' == r
    ensures |r.nodes| >= 2 ==> r'.leader == Some(r.nodes[choice]) && r'.leader.value in r.nodes
    ensures r'.nodes == r.nodes
    ensures r'.graph.(colors := r.graph.colors) == r.graph
    ensures r.graph.nodes <= r.graph.colors.Keys ==> r'.graph.colors.Keys == r.graph.colors.Keys
  {
    if |r.nodes| < 2 then r
    else
      var g1 := ChangeColor(r.graph, "all", Yellow);
      var winner := PickRandomNode(r.nodes, choice);
      var g2 := ChangeColor(g1, winner, Blue);
      var g3 := ChangeColor(g2, "all-" + winner, Gray);
      r.(leader := Some(winner), graph := g3)
  }

  /** The state right after `add_node(id)` has placed, meshed and appended
      the new node, before any election. */
  function Joined(r: Raft, id: NodeId, p: Point): Raft
    requires id in r.graph.nodes || Placeable(r.graph, p)
  {
    r.(graph := CompleteEdgesFor(Topology.AddNode(r.graph, id, p), id), nodes := r.nodes + [id])
  }

  /** Placing and meshing a new node adds it, its position and its edges to
      the store and touches nothing else there. */
  lemma JoinedStore(r: Raft, id: NodeId, p: Point)
    requires id in r.graph.nodes || Placeable(r.graph, p)
    ensures id !in r.graph.nodes ==>
      var g := Joined(r, id, p).graph;
      && g.nodes == r.graph.nodes + {id}
      && g.positions == r.graph.positions[id := p]
      && g.edges == r.graph.edges + MeshEdges(r.graph.nodes, id)
      && g.edgeColors == r.graph.edgeColors + MeshColors(r.graph.nodes, id)
  {
    var g1 := Topology.AddNode(r.graph, id, p);
    assert MeshEdges(g1.nodes, id) == MeshEdges(r.graph.nodes, id) by {
      assert g1.nodes <= r.graph.nodes + {id};
    }
    assert MeshColors(g1.nodes, id) == MeshColors(r.graph.nodes, id) by {
      assert g1.nodes <= r.graph.nodes + {id};
    }
  }

  /** `add_node`: a listed id changes nothing; otherwise the id is placed at
      `p`, meshed with every present node and appended, and an election runs
      when the list has just reached two nodes. */
  function AddNode(r: Raft, id: NodeId, p: Point, choice: nat): (r': Raft)
    requires id in r.nodes || id in r.graph.nodes || Placeable(r.graph, p)
    requires id !in r.nodes && |r.nodes| == 1 ==> choice < 2
    ensures id in r.nodes ==> r' == r
    ensures id !in r.nodes ==> r'.nodes == r.nodes + [id] && id in r'.graph.nodes
    ensures id !in r.nodes ==> forall n :: n in r'.graph.nodes && n != id ==> Adjacent(r'.graph, n, id)
    ensures id !in r.nodes && |r.nodes| == 1 ==> r'.leader == Some((r.nodes + [id])[choice])
    ensures id !in r.nodes && |r.nodes| != 1 ==> r'.leader == r.leader
    ensures id !in r.nodes && |r.nodes| != 1 && id !in r.graph.nodes ==>
      r'.graph.colors == r.graph.colors[id := Gray]
    ensures id !in r.nodes && id !in r.graph.nodes ==>
      && r'.graph.nodes == r.graph.nodes + {id}
      && r'.graph.positions == r.graph.positions[id := p]
      && r'.graph.edges == r.graph.edges + MeshEdges(r.graph.nodes, id)
      && r'.graph.edgeColors == r.graph.edgeColors + MeshColors(r.graph.nodes, id)
  {
    if id in r.nodes then r
    else
      var r1 := Joined(r, id, p);
      JoinedStore(r, id, p);
      if |r1.nodes| == 2 then StartElection(r1, choice) else r1
  }

  /** `__leader_was_killed`: the leader is cleared and an election re-run,
      which does nothing with fewer than two nodes. */
  function LeaderWasKilled(r: Raft, choice: nat): (r': Raft)
    requires |r.nodes| >= 2 ==> choice < |r.nodes|
    ensures |r.nodes| < 2 ==> r' == r.(leader := None)
    ensures |r.nodes| >= 2 ==> r'.leader.Some? && r'.leader.value in r.nodes
    ensures r'.nodes == r.nodes
  {
    StartElection(r.(leader := None), choice)
  }

  /** `__only_one_node`: the first listed node becomes leader and is coloured
      blue. The source would raise on an empty list; no caller reaches that. */
  function OnlyOneNode(r: Raft): (r': Raft)
    ensures |r.nodes| >= 1 ==> r'.leader == Some(r.nodes[0])
    ensures |r.nodes| >= 1 && r.nodes[0] in r.graph.nodes ==>
      r.nodes[0] in r'.graph.colors && r'.graph.colors[r.nodes[0]] == Blue
    ensures r'.nodes == r.nodes
    ensures r'.graph.(colors := r.graph.colors) == r.graph
  {
    if |r.nodes| == 0 then r
    else r.(leader := Some(r.nodes[0]), graph := ChangeColor(r.graph, r.nodes[0], Blue))
  }

  /** Python's `==` between a list and an int: values of different types
      never compare equal, so the test at raft.py:66 is always false. */
  function ListEqualsInt(s: seq<NodeId>, k: int): bool
  {
    false
  }

  /** What `kill_node(id)` needs from the random source: when it kills the
      leader and at least two nodes survive, the re-election's index. */
  predicate ReelectionChoice(r: Raft, id: NodeId, choice: nat)
  {
    id in r.nodes && |r.nodes| != 1 && r.leader == Some(id) && |r.nodes| - 1 >= 2 ==> choice < |r.nodes| - 1
  }

  /** The state right after `kill_node(id)` has dropped the node from the
      store and the list, before any election. */
  function Dropped(r: Raft, id: NodeId): Raft
    requires id in r.nodes
  {
    r.(graph := RemoveNode(r.graph, id), nodes := RemoveFirst(r.nodes, id))
  }

  /** `kill_node`, as written: an unlisted id or a last remaining node is left
      alone; otherwise the node leaves the store and the list, and killing the
      leader clears it and re-runs the election. The sole-survivor branch sits
      behind a test that is never true. */
  function KillNode(r: Raft, id: NodeId, choice: nat): (r': Raft)
    requires ReelectionChoice(r, id, choice)
    ensures id !in r.nodes || |r.nodes| == 1 ==> r' == r
    ensures |r.nodes| >= 1 ==> |r'.nodes| >= 1
    ensures id in r.nodes && |r.nodes| != 1 ==>
      |r'.nodes| == |r.nodes| - 1 && multiset(r'.nodes) == multiset(r.nodes) - multiset{id}
    ensures id in r.nodes && |r.nodes| != 1 ==> r'.nodes == RemoveFirst(r.nodes, id)
    ensures id in r.nodes && |r.nodes| != 1 ==> r'.graph.nodes == r.graph.nodes - {id}
    ensures id in r.nodes && |r.nodes| != 1 && id in r.graph.nodes ==>
      r'.graph.positions == r.graph.positions - {id}
    ensures id in r.nodes && |r.nodes| != 1 && r.leader != Some(id) ==>
      r'.graph == RemoveNode(r.graph, id)
    ensures id in r.nodes && |r.nodes| != 1 && r.leader == Some(id) ==>
      r'.graph.(colors := RemoveNode(r.graph, id).colors) == RemoveNode(r.graph, id)
    ensures r.leader != Some(id) ==> r'.leader == r.leader
    ensures id in r.nodes && |r.nodes| >= 3 && r.leader == Some(id) ==>
      r'.leader.Some? && r'.leader.value in r'.nodes
    ensures id in r.nodes && |r.nodes| == 2 && r.leader == Some(id) ==> r'.leader.None?
  {
    if id !in r.nodes || |r.nodes| == 1 then r
    else
      RemoveFirstCount(r.nodes, id);
      var r1 := Dropped(r, id);
      var r2 := if r.leader == Some(id) then LeaderWasKilled(r1, choice) else r1;
      if ListEqualsInt(r2.nodes, 1) then OnlyOneNode(r2) else r2
  }

  /** What `kill_leader` needs from the random source. */
  predicate KillLeaderChoice(r: Raft, choice: nat)
  {
    r.leader.Some? ==> ReelectionChoice(r, r.leader.value, choice)
  }

  /** `kill_leader`: nothing happens when the leader is unset or falsy (the
      empty id); otherwise the leader is killed as by `kill_node`. */
  function KillLeader(r: Raft, choice: nat): (r': Raft)
    requires KillLeaderChoice(r, choice)
    ensures r.leader.None? || r.leader.value == "" ==> r' == r
    ensures |r.nodes| >= 1 ==> |r'.nodes| >= 1
  {
    if r.leader.None? || r.leader.value == "" then r
    else KillNode(r, r.leader.value, choice)
  }

  // ---------------------------------------------------------------------
  // The invariant is preserved by every command.

  /** A step that changes only colours and the leader keeps the state sound
      as long as the leader stays listed. */
  lemma RecolorKeepsSound(r: Raft, r': Raft)
    requires Sound(r)
    requires r'.nodes == r.nodes && r'.graph.(colors := r.graph.colors) == r.graph
    requires r'.graph.colors.Keys == r.graph.colors.Keys
    requires r'.leader.Some? ==> r'.leader.value in r.nodes
    ensures Sound(r')
  {
    assert r'.graph.edges == r.graph.edges && r'.graph.nodes == r.graph.nodes;
    assert forall a, b :: Adjacent(r'.graph, a, b) == Adjacent(r.graph, a, b);
  }

  lemma StartElectionKeepsSound(r: Raft, choice: nat)
    requires Sound(r) && (|r.nodes| >= 2 ==> choice < |r.nodes|)
    ensures Sound(StartElection(r, choice))
    ensures |r.nodes| >= 2 ==> StartElection(r, choice).leader.Some?
  {
    RecolorKeepsSound(r, StartElection(r, choice));
  }

  lemma StartElectionKeepsInv(r: Raft, choice: nat)
    requires Inv(r) && (|r.nodes| >= 2 ==> choice < |r.nodes|)
    ensures Inv(StartElection(r, choice))
  {
    StartElectionKeepsSound(r, choice);
  }

  lemma JoinedMesh(g: Graph, id: NodeId, p: Point)
    requires Mesh(g) && id !in g.nodes && Placeable(g, p)
    ensures Mesh(CompleteEdgesFor(Topology.AddNode(g, id, p), id))
  {
    var g2 := CompleteEdgesFor(Topology.AddNode(g, id, p), id);
    forall a, b | a in g2.nodes && b in g2.nodes && a != b
      ensures Adjacent(g2, a, b)
    {
      if a == id {
        assert Adjacent(g2, b, a);
        assert {b, a} == {a, b};
      } else if b != id {
        assert Adjacent(g, a, b);
      }
    }
  }

  lemma JoinedIsSound(r: Raft, id: NodeId, p: Point)
    requires Sound(r) && id !in r.nodes && Placeable(r.graph, p)
    ensures Sound(Joined(r, id, p))
  {
    var g1 := Topology.AddNode(r.graph, id, p);
    AddNodeKeepsValid(r.graph, id, p);
    CompleteEdgesForKeepsValid(g1, id);
    JoinedMesh(r.graph, id, p);
    AppendFresh(r.nodes, id);
  }

  /** Appending an unlisted id keeps the list duplicate-free. */
  lemma AppendFresh(s: seq<NodeId>, x: NodeId)
    requires NoDup(s) && x !in s
    ensures NoDup(s + [x]) && Members(s + [x]) == Members(s) + {x}
  {
    assert forall i :: 0 <= i < |s| ==> (s + [x])[i] == s[i];
  }

  lemma AddNodeKeepsInv(r: Raft, id: NodeId, p: Point, choice: nat)
    requires Inv(r)
    requires id in r.nodes || Placeable(r.graph, p)
    requires id !in r.nodes && |r.nodes| == 1 ==> choice < 2
    ensures Inv(AddNode(r, id, p, choice))
  {
    if id !in r.nodes {
      JoinedIsSound(r, id, p);
      var r1 := Joined(r, id, p);
      assert AddNode(r, id, p, choice) == if |r1.nodes| == 2 then StartElection(r1, choice) else r1;
      if |r1.nodes| == 2 {
        StartElectionKeepsSound(r1, choice);
      }
    }
  }

  lemma DroppedMesh(g: Graph, id: NodeId)
    requires Mesh(g)
    ensures Mesh(RemoveNode(g, id))
  {
    var g1 := RemoveNode(g, id);
    forall a, b | a in g1.nodes && b in g1.nodes && a != b
      ensures Adjacent(g1, a, b)
    {
      assert Adjacent(g, a, b);
    }
  }

  lemma DroppedIsSound(r: Raft, id: NodeId)
    requires Sound(r) && id in r.nodes
    ensures r.leader != Some(id) ==> Sound(Dropped(r, id))
    ensures Sound(Dropped(r, id).(leader := None))
    ensures |Dropped(r, id).nodes| == |r.nodes| - 1
  {
    RemoveFirstCount(r.nodes, id);
    RemoveFirstNoDup(r.nodes, id);
    RemoveNodeKeepsValid(r.graph, id);
    DroppedMesh(r.graph, id);
  }

  lemma KillNodeKeepsInv(r: Raft, id: NodeId, choice: nat)
    requires Inv(r) && ReelectionChoice(r, id, choice)
    ensures Inv(KillNode(r, id, choice))
  {
    if id in r.nodes && |r.nodes| != 1 {
      DroppedIsSound(r, id);
      var r1 := Dropped(r, id);
      if r.leader == Some(id) {
        StartElectionKeepsSound(r1.(leader := None), choice);
      }
    }
  }

  lemma KillLeaderKeepsInv(r: Raft, choice: nat)
    requires Inv(r) && KillLeaderChoice(r, choice)
    ensures Inv(KillLeader(r, choice))
  {
    if r.leader.Some? && r.leader.value != "" {
      KillNodeKeepsInv(r, r.leader.value, choice);
    }
  }

  /** `kill_leader` with a truthy leader is `kill_node(leader)`. */
  lemma KillLeaderIsKillNode(r: Raft, choice: nat)
    requires KillLeaderChoice(r, choice)
    requires r.leader.Some? && r.leader.value != ""
    ensures KillLeader(r, choice) == KillNode(r, r.leader.value, choice)
  {
  }

  // ---------------------------------------------------------------------
  // Colouring: with hyphen-free ids the leader is blue and the rest gray.

  /** An election over hyphen-free ids leaves the winner blue and every other
      node gray, whatever the colours were before. */
  lemma StartElectionPaints(r: Raft, choice: nat)
    requires Sound(r) && PlainIds(r) && |r.nodes| >= 2 && choice < |r.nodes|
    ensures Painted(StartElection(r, choice))
  {
    var w := r.nodes[choice];
    var g1 := ChangeColor(r.graph, "all", Yellow);
    var g2 := ChangeColor(g1, w, Blue);
    var g3 := ChangeColor(g2, "all-" + w, Gray);
    assert w in r.graph.nodes;
    if w != "all" {
      PlainIdIsSingle(w);
    }
    assert g2.colors[w] == Blue;
    ExcludedIdRoundTrip(w);
    var t := "all-" + w;
    assert t != "all" && |t| >= 4 && t[..4] == "all-" && t[4..] == w;
    assert forall n :: n in r.graph.nodes && n != w ==> g3.colors[n] == Gray;
    assert g3.colors[w] == Blue;
    assert StartElection(r, choice) == r.(leader := Some(w), graph := g3);
  }

  lemma JoinedKeepsPainted(r: Raft, id: NodeId, p: Point)
    requires Sound(r) && Painted(r) && id !in r.nodes && Placeable(r.graph, p)
    ensures Painted(Joined(r, id, p))
  {
    var g := r.graph;
    assert id !in g.nodes;
    var g1 := Topology.AddNode(g, id, p);
    var g2 := CompleteEdgesFor(g1, id);
    assert g2.colors == g.colors[id := Gray] && g2.nodes == g.nodes + {id};
    assert r.leader != Some(id);
    var j := Joined(r, id, p);
    assert j.graph == g2 && j.leader == r.leader;
    forall n | n in g2.nodes
      ensures n in g2.colors && g2.colors[n] == (if r.leader == Some(n) then Blue else Gray)
    {
      if n != id {
        assert n in g.nodes;
      }
    }
  }

  lemma JoinedIsPlain(r: Raft, id: NodeId, p: Point)
    requires PlainIds(r) && '-' !in id && (id in r.graph.nodes || Placeable(r.graph, p))
    ensures PlainIds(Joined(r, id, p))
  {
    assert forall n :: n in r.nodes + [id] ==> n in r.nodes || n == id;
  }

  lemma AddNodeKeepsPainted(r: Raft, id: NodeId, p: Point, choice: nat)
    requires Inv(r) && Painted(r) && PlainIds(r) && '-' !in id
    requires id in r.nodes || Placeable(r.graph, p)
    requires id !in r.nodes && |r.nodes| == 1 ==> choice < 2
    ensures Painted(AddNode(r, id, p, choice)) && PlainIds(AddNode(r, id, p, choice))
  {
    if id !in r.nodes {
      JoinedIsPlain(r, id, p);
      if |r.nodes| == 1 {
        JoinedIsSound(r, id, p);
        StartElectionPaints(Joined(r, id, p), choice);
        assert AddNode(r, id, p, choice) == StartElection(Joined(r, id, p), choice);
      } else {
        JoinedKeepsPainted(r, id, p);
        assert AddNode(r, id, p, choice) == Joined(r, id, p);
      }
    }
  }

  lemma DroppedKeepsPainted(r: Raft, id: NodeId)
    requires Sound(r) && Painted(r) && PlainIds(r) && id in r.nodes
    ensures r.leader != Some(id) ==> Painted(Dropped(r, id))
    ensures r.leader == Some(id) ==> Painted(Dropped(r, id).(leader := None))
    ensures PlainIds(Dropped(r, id))
  {
    RemoveFirstNoDup(r.nodes, id);
    var r1 := Dropped(r, id);
    assert forall n :: n in r1.nodes ==> n in Members(r1.nodes);
    var g := r.graph;
    var g1 := RemoveNode(g, id);
    forall n | n in g1.nodes
      ensures n in g1.colors && g1.colors[n] == g.colors[n]
    {
    }
  }

  lemma LeaderWasKilledPaints(r: Raft, choice: nat)
    requires Sound(r.(leader := None)) && Painted(r.(leader := None)) && PlainIds(r)
    requires |r.nodes| >= 2 ==> choice < |r.nodes|
    ensures Painted(LeaderWasKilled(r, choice))
  {
    if |r.nodes| >= 2 {
      StartElectionPaints(r.(leader := None), choice);
    }
  }

  lemma KillNodeKeepsPainted(r: Raft, id: NodeId, choice: nat)
    requires Inv(r) && Painted(r) && PlainIds(r) && ReelectionChoice(r, id, choice)
    ensures Painted(KillNode(r, id, choice)) && PlainIds(KillNode(r, id, choice))
  {
    if id in r.nodes && |r.nodes| != 1 {
      DroppedIsSound(r, id);
      DroppedKeepsPainted(r, id);
      var r1 := Dropped(r, id);
      if r.leader == Some(id) {
        LeaderWasKilledPaints(r1, choice);
        assert KillNode(r, id, choice) == LeaderWasKilled(r1, choice);
      } else {
        assert KillNode(r, id, choice) == r1;
      }
    }
  }

  lemma KillLeaderKeepsPainted(r: Raft, choice: nat)
    requires Inv(r) && Painted(r) && PlainIds(r) && KillLeaderChoice(r, choice)
    ensures Painted(KillLeader(r, choice)) && PlainIds(KillLeader(r, choice))
  {
    if r.leader.Some? && r.leader.value != "" {
      KillNodeKeepsPainted(r, r.leader.value, choice);
    }
  }

  // ---------------------------------------------------------------------
  // Scenarios.

  /** Killing the leader of three or more nodes removes it and elects one of
      the survivors. */
  lemma LeaderLossRecovery(r: Raft, choice: nat)
    requires Inv(r) && |r.nodes| >= 3 && r.leader.Some? && choice < |r.nodes| - 1
    ensures var r' := KillNode(r, r.leader.value, choice);
      && r.leader.value !in r'.nodes
      && r'.leader.Some? && r'.leader.value in r'.nodes && r'.leader.value in r.nodes
  {
    var l := r.leader.value;
    RemoveFirstNoDup(r.nodes, l);
    assert KillNode(r, l, choice).nodes == RemoveFirst(r.nodes, l);
  }

  /** The first two distinct nodes added to a cluster with an empty list, such
      as a fresh one, elect the node at the drawn index. */
  lemma SecondNodeElects(r0: Raft, a: NodeId, b: NodeId, pa: Point, pb: Point, choice: nat)
    requires r0.nodes == [] && a != b && choice < 2
    requires a in r0.graph.nodes || Placeable(r0.graph, pa)
    requires var r1 := AddNode(r0, a, pa, 0); b in r1.graph.nodes || Placeable(r1.graph, pb)
    ensures var r := AddNode(AddNode(r0, a, pa, 0), b, pb, choice);
      r.nodes == [a, b] && r.leader == Some([a, b][choice])
  {
    FirstNodeJoins(r0, a, pa);
    JoinsSingleNode(AddNode(r0, a, pa, 0), b, pb, choice);
  }

  lemma FirstNodeJoins(r0: Raft, a: NodeId, pa: Point)
    requires r0.nodes == [] && (a in r0.graph.nodes || Placeable(r0.graph, pa))
    ensures AddNode(r0, a, pa, 0).nodes == [a]
  {
  }

  /** Adding a new node to a one-node cluster always runs an election, which
      the node at the drawn index of the extended list wins. */
  lemma JoinsSingleNode(r: Raft, b: NodeId, pb: Point, choice: nat)
    requires |r.nodes| == 1 && b !in r.nodes && choice < 2
    requires b in r.graph.nodes || Placeable(r.graph, pb)
    ensures var r' := AddNode(r, b, pb, choice);
      r'.nodes == [r.nodes[0], b] && r'.leader == Some([r.nodes[0], b][choice])
  {
    assert r.nodes + [b] == [r.nodes[0], b];
  }

  // ---------------------------------------------------------------------
  // Findings: the code as written next to what it evidently intends.

  /** As written, killing the leader of a two-node cluster leaves the
      survivor leaderless: the re-election needs two nodes and the
      sole-survivor promotion sits behind a test that is never true. */
  lemma SoleSurvivorNotPromoted(r: Raft, choice: nat)
    requires Inv(r) && |r.nodes| == 2 && r.leader.Some?
    ensures var r' := KillNode(r, r.leader.value, choice);
      |r'.nodes| == 1 && r'.leader == None
  {
  }

  /** `kill_node` with the evidently intended test `len(self.nodes) == 1`, so
      that a sole survivor is promoted to leader. */
  function KillNodeIntended(r: Raft, id: NodeId, choice: nat): (r': Raft)
    requires ReelectionChoice(r, id, choice)
    ensures id !in r.nodes || |r.nodes| == 1 ==> r' == r
    ensures id in r.nodes && |r.nodes| == 2 ==> r'.leader.Some? && r'.leader.value in r'.nodes
    ensures id in r.nodes && |r.nodes| == 2 && NoDup(r.nodes) && Members(r.nodes) == r.graph.nodes ==>
      r'.leader.value in r'.graph.colors && r'.graph.colors[r'.leader.value] == Blue
  {
    if id !in r.nodes || |r.nodes| == 1 then r
    else
      RemoveFirstCount(r.nodes, id);
      assert NoDup(r.nodes) ==> Members(RemoveFirst(r.nodes, id)) == Members(r.nodes) - {id} by {
        if NoDup(r.nodes) {
          RemoveFirstNoDup(r.nodes, id);
        }
      }
      var r1 := Dropped(r, id);
      var r2 := if r.leader == Some(id) then LeaderWasKilled(r1, choice) else r1;
      if |r2.nodes| == 1 then OnlyOneNode(r2) else r2
  }

  /** With the intended test, killing any node of a sound cluster of two or
      more leaves a listed leader. */
  lemma KillNodeIntendedKeepsLeader(r: Raft, id: NodeId, choice: nat)
    requires Inv(r) && ReelectionChoice(r, id, choice) && id in r.nodes && |r.nodes| >= 2
    ensures var r' := KillNodeIntended(r, id, choice);
      r'.leader.Some? && r'.leader.value in r'.nodes && id !in r'.nodes
  {
    RemoveFirstCount(r.nodes, id);
    RemoveFirstNoDup(r.nodes, id);
    var r1 := Dropped(r, id);
    assert id !in Members(r1.nodes);
    var r2 := if r.leader == Some(id) then LeaderWasKilled(r1, choice) else r1;
    assert KillNodeIntended(r, id, choice) == if |r2.nodes| == 1 then OnlyOneNode(r2) else r2;
    if r.leader != Some(id) {
      assert r.leader.value in Members(r1.nodes);
    }
  }

  /** As written, an election whose winner contains '-' colours the winner
      gray: "all-<winner>" excludes only the text before the winner's first
      '-'. */
  lemma HyphenatedWinnerTurnsGray(r: Raft, choice: nat)
    requires Sound(r) && |r.nodes| >= 2 && choice < |r.nodes| && '-' in r.nodes[choice]
    ensures var w := r.nodes[choice];
      var r' := StartElection(r, choice);
      r'.leader == Some(w) && w in r'.graph.colors && r'.graph.colors[w] == Gray
  {
    var w := r.nodes[choice];
    FirstFieldWhole(w);
    var t := "all-" + w;
    assert t != "all" && |t| >= 4 && t[..4] == "all-" && t[4..] == w;
    assert w in r.graph.nodes;
  }

  /** As written, when the text before a hyphenated winner's first '-' is
      itself a listed node, "all-<winner>" spares that node instead, so it
      keeps the election's yellow. */
  lemma LoserStaysYellow(r: Raft, choice: nat)
    requires Sound(r) && |r.nodes| >= 2 && choice < |r.nodes|
    requires var w := r.nodes[choice];
      !(|w| >= 4 && w[..4] == "all-") && FirstField(w) != w && FirstField(w) in r.nodes
    ensures var x := FirstField(r.nodes[choice]);
      var r' := StartElection(r, choice);
      x in r'.graph.colors && r'.graph.colors[x] == Yellow
  {
    var w := r.nodes[choice];
    var x := FirstField(w);
    FirstFieldWhole(w);
    assert x in r.graph.nodes;
    var g1 := ChangeColor(r.graph, "all", Yellow);
    assert g1.colors[x] == Yellow;
    assert w != "all" && w in g1.nodes;
    var g2 := ChangeColor(g1, w, Blue);
    assert g2.colors == g1.colors[w := Blue];
    assert g2.colors[x] == Yellow;
    var t := "all-" + w;
    assert t != "all" && |t| >= 4 && t[..4] == "all-" && t[4..] == w;
    var g3 := ChangeColor(g2, t, Gray);
    assert g3.colors[x] == Yellow;
    assert StartElection(r, choice).graph == g3;
  }

  /** `start_election` with tagged targets instead of strings, so the winner
      is excluded by identity rather than by splitting a string. */
  function StartElectionIntended(r: Raft, choice: nat): (r': Raft)
    requires |r.nodes| >= 2 ==> choice < |r.nodes|
    ensures |r.nodes| < 2 ==> r' == r
    ensures |r.nodes| >= 2 ==> r'.leader.Some? && r'.leader.value in r.nodes
    ensures r'.nodes == r.nodes && r'.graph.(colors := r.graph.colors) == r.graph
  {
    if |r.nodes| < 2 then r
    else
      var winner := PickRandomNode(r.nodes, choice);
      var g1 := Recolor(r.graph, All, Yellow);
      var g2 := Recolor(g1, Single(winner), Blue);
      var g3 := Recolor(g2, AllExcept(winner), Gray);
      r.(leader := Some(winner), graph := g3)
  }

  /** The intended election paints the winner blue and the rest gray for
      every choice of ids. */
  lemma StartElectionIntendedPaints(r: Raft, choice: nat)
    requires Sound(r) && |r.nodes| >= 2 && choice < |r.nodes|
    ensures Painted(StartElectionIntended(r, choice))
  {
    assert r.nodes[choice] in r.graph.nodes;
  }
}
