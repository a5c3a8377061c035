/**
 Model of the topology store of graph.py: the node set, the integer positions
 on a square canvas, the node colours, the undirected edge set and the edge
 colours keyed by the ordered pair the edge was inserted with.

 Rendering (`update`, the labels), `wait` and the command-file driver are not
 part of this model; every operation is a pure function from one store to the
 next. The random placement point is an input constrained by `Placeable`.
 */
module Topology {
  import opened Options

  type NodeId = string
  type Color = string

  /** An undirected edge is the set of its endpoints. */
  type Edge = set<NodeId>

  const DefaultSize: int := 20
  const MinDistance: int := 3
  const Gray: Color := "gray"
  const Black: Color := "black"

  datatype Point = Point(x: int, y: int)

  datatype Graph = Graph(
    canvasSize: int,
    nodes: set<NodeId>,
    positions: map<NodeId, Point>,
    colors: map<NodeId, Color>,
    edges: set<Edge>,
    edgeColors: map<(NodeId, NodeId), Color>)

  /** Squared Euclidean distance; on integer points `sqrt(d) < 3` holds exactly
      when `d < 9`, so no square root is needed. */
  function Dist2(p: Point, q: Point): int
  {
    (p.x - q.x) * (p.x - q.x) + (p.y - q.y) * (p.y - q.y)
  }

  predicate TooClose(p: Point, q: Point)
  {
    Dist2(p, q) < MinDistance * MinDistance
  }

  /** Both coordinates are in [1, size-1], the range `randint(1, size-1)` draws from. */
  predicate InCanvas(size: int, p: Point)
  {
    1 <= p.x <= size - 1 && 1 <= p.y <= size - 1
  }

  /** `p` keeps the minimum distance to every placed node. */
  predicate FarFromAll(positions: map<NodeId, Point>, p: Point)
  {
    forall n :: n in positions ==> !TooClose(p, positions[n])
  }

  /** A point the placement loop can accept for a new node of `g`. */
  predicate Placeable(g: Graph, p: Point)
  {
    InCanvas(g.canvasSize, p) && FarFromAll(g.positions, p)
  }

  /** Every two distinct nodes are at least the minimum distance apart. */
  predicate Spaced(positions: map<NodeId, Point>)
  {
    forall a, b :: a in positions && b in positions && a != b ==> !TooClose(positions[a], positions[b])
  }

  function EdgeOf(k: (NodeId, NodeId)): Edge
  {
    {k.0, k.1}
  }

  /** The undirected edges named by the keys of an edge-colour map. */
  function EdgeSet(edgeColors: map<(NodeId, NodeId), Color>): set<Edge>
  {
    set k | k in edgeColors :: EdgeOf(k)
  }

  predicate Adjacent(g: Graph, a: NodeId, b: NodeId)
  {
    {a, b} in g.edges
  }

  /** The store's invariant: positions and colours are keyed by exactly the
      node set, every edge joins present nodes, the edge set is the one the
      edge-colour keys name, positions lie on the canvas and keep the minimum
      distance. */
  predicate Valid(g: Graph)
  {
    && g.positions.Keys == g.nodes
    && g.colors.Keys == g.nodes
    && (forall e :: e in g.edges ==> e <= g.nodes)
    && g.edges == EdgeSet(g.edgeColors)
    && (forall n :: n in g.positions ==> InCanvas(g.canvasSize, g.positions[n]))
    && Spaced(g.positions)
  }

  /** A fresh store with the given canvas size; `Graph()` uses `DefaultSize`. */
  function Empty(size: int): (g: Graph)
    ensures Valid(g)
    ensures g.nodes == {} && g.edges == {} && g.canvasSize == size
  {
    Graph(size, {}, map[], map[], {}, map[])
  }

  /** `Graph()` with no argument: an empty store on the default canvas. */
  function DefaultGraph(): (g: Graph)
    ensures Valid(g)
    ensures g.nodes == {} && g.edges == {} && g.canvasSize == DefaultSize
  {
    Empty(DefaultSize)
  }

  /** `is_too_close`: scans the placed positions for one nearer than the
      minimum distance. */
  method IsTooClose(positions: map<NodeId, Point>, p: Point) returns (tooClose: bool)
    ensures tooClose <==> !FarFromAll(positions, p)
  {
    var rest := positions.Keys;
    while rest != {}
      invariant rest <= positions.Keys
      invariant forall n :: n in positions && n !in rest ==> !TooClose(p, positions[n])
      decreases rest
    {
      var n :| n in rest;
      if TooClose(p, positions[n]) {
        return true;
      }
      rest := rest - {n};
    }
    return false;
  }

  /** The placement loop of `add_node` run over a finite prefix of the random
      sample stream: the index of the first sample that is not too close, or
      None when every sample in the prefix is rejected. */
  function Allocate(positions: map<NodeId, Point>, samples: seq<Point>): (r: Option<nat>)
    ensures r.Some? ==> r.value < |samples| && FarFromAll(positions, samples[r.value])
    ensures r.Some? ==> forall j :: 0 <= j < r.value ==> !FarFromAll(positions, samples[j])
    ensures r.None? ==> forall j :: 0 <= j < |samples| ==> !FarFromAll(positions, samples[j])
  {
    if samples == [] then None
    else if FarFromAll(positions, samples[0]) then Some(0)
    else match Allocate(positions, samples[1..])
      case None => None
      case Some(k) => Some(k + 1)
  }

  /** `add_node`: a present id changes nothing; a new id is added gray at the
      accepted point `p`. */
  function AddNode(g: Graph, id: NodeId, p: Point): (r: Graph)
    requires id in g.nodes || Placeable(g, p)
    ensures id in g.nodes ==> r == g
    ensures id !in g.nodes ==> r.nodes == g.nodes + {id}
    ensures id !in g.nodes ==> id in r.colors && r.colors[id] == Gray
    ensures id !in g.nodes ==> id in r.positions && InCanvas(g.canvasSize, r.positions[id])
    ensures id !in g.nodes ==> forall n :: n in g.positions && n != id ==> !TooClose(r.positions[id], g.positions[n])
    ensures forall n :: n in g.positions && n != id ==> n in r.positions && r.positions[n] == g.positions[n]
    ensures forall n :: n in g.colors && n != id ==> n in r.colors && r.colors[n] == g.colors[n]
    ensures r.edges == g.edges && r.edgeColors == g.edgeColors && r.canvasSize == g.canvasSize
  {
    if id in g.nodes then g
    else g.(nodes := g.nodes + {id}, colors := g.colors[id := Gray], positions := g.positions[id := p])
  }

  /** `add_edge`: a no-op unless both endpoints are present; otherwise the
      undirected edge exists afterwards and the ordered key is coloured black.
      Equal endpoints are not rejected. */
  function AddEdge(g: Graph, a: NodeId, b: NodeId): (r: Graph)
    ensures a !in g.nodes || b !in g.nodes ==> r == g
    ensures a in g.nodes && b in g.nodes ==> Adjacent(r, a, b) && (a, b) in r.edgeColors && r.edgeColors[(a, b)] == Black
    ensures a in g.nodes && b in g.nodes ==> r.edges == g.edges + {{a, b}}
    ensures forall k :: k in g.edgeColors && k != (a, b) ==> k in r.edgeColors && r.edgeColors[k] == g.edgeColors[k]
    ensures r.edgeColors.Keys <= g.edgeColors.Keys + {(a, b)}
    ensures r.nodes == g.nodes && r.positions == g.positions && r.colors == g.colors && r.canvasSize == g.canvasSize
  {
    if a !in g.nodes || b !in g.nodes then g
    else g.(edges := g.edges + {{a, b}}, edgeColors := g.edgeColors[(a, b) := Black])
  }

  /** The edges `complete_edges_for(id)` adds: one to every other present node. */
  function MeshEdges(nodes: set<NodeId>, id: NodeId): set<Edge>
  {
    set n | n in nodes && n != id :: {n, id}
  }

  /** The edge-colour entries `complete_edges_for(id)` adds, keyed `(other, id)`. */
  function MeshColors(nodes: set<NodeId>, id: NodeId): map<(NodeId, NodeId), Color>
  {
    map n | n in nodes && n != id :: (n, id) := Black
  }

  /** `complete_edges_for`: connects `id` to every other present node; a
      missing `id` makes every inner `add_edge` a no-op. */
  function CompleteEdgesFor(g: Graph, id: NodeId): (r: Graph)
    ensures id !in g.nodes ==> r == g
    ensures id in g.nodes ==> forall n :: n in g.nodes && n != id ==> Adjacent(r, n, id) && (n, id) in r.edgeColors && r.edgeColors[(n, id)] == Black
    ensures g.edges <= r.edges
    ensures forall e :: e in r.edges && e !in g.edges ==> id in e && e <= g.nodes
    ensures forall k :: k in g.edgeColors && k.1 != id ==> k in r.edgeColors && r.edgeColors[k] == g.edgeColors[k]
    ensures r.nodes == g.nodes && r.positions == g.positions && r.colors == g.colors && r.canvasSize == g.canvasSize
  {
    if id !in g.nodes then g
    else g.(edges := g.edges + MeshEdges(g.nodes, id), edgeColors := g.edgeColors + MeshColors(g.nodes, id))
  }

  /** The loop of `complete_edges_for` as written: one `add_edge(node, id)` per
      other node, in any iteration order, yields the closed form above. */
  method CompleteEdgesForLoop(g: Graph, id: NodeId) returns (r: Graph)
    ensures r == CompleteEdgesFor(g, id)
  {
    r := g;
    var todo := g.nodes;
    ghost var done: set<NodeId> := {};
    while todo != {}
      invariant todo <= g.nodes && done == g.nodes - todo
      invariant MeshedUpTo(g, r, done, id)
      decreases todo
    {
      var n :| n in todo;
      ghost var before := r;
      if n != id {
        r := AddEdge(r, n, id);
      }
      MeshedStep(g, before, done, n, id);
      todo := todo - {n};
      done := done + {n};
    }
    MeshedAll(g, r, done, id);
  }

  /** Loop invariant of `CompleteEdgesForLoop`: `r` is `g` with `id` joined to
      the nodes already visited. */
  ghost predicate MeshedUpTo(g: Graph, r: Graph, done: set<NodeId>, id: NodeId)
  {
    && r.nodes == g.nodes && r.positions == g.positions && r.colors == g.colors && r.canvasSize == g.canvasSize
    && r.edges == (if id in g.nodes then g.edges + MeshEdges(done, id) else g.edges)
    && r.edgeColors == (if id in g.nodes then g.edgeColors + MeshColors(done, id) else g.edgeColors)
  }

  lemma MeshedAll(g: Graph, r: Graph, done: set<NodeId>, id: NodeId)
    requires done == g.nodes && MeshedUpTo(g, r, done, id)
    ensures r == CompleteEdgesFor(g, id)
  {
  }

  lemma MeshedStep(g: Graph, r: Graph, done: set<NodeId>, n: NodeId, id: NodeId)
    requires n in g.nodes && MeshedUpTo(g, r, done, id)
    ensures MeshedUpTo(g, if n != id then AddEdge(r, n, id) else r, done + {n}, id)
  {
    if id in g.nodes {
      if n != id {
        MeshEdgesStep(g.edges, done, n, id);
        MeshColorsStep(g.edgeColors, done, n, id);
      } else {
        assert MeshEdges(done + {n}, id) == MeshEdges(done, id);
        assert MeshColors(done + {n}, id) == MeshColors(done, id);
      }
    }
  }

  lemma MeshEdgesStep(edges: set<Edge>, done: set<NodeId>, n: NodeId, id: NodeId)
    requires n != id
    ensures edges + MeshEdges(done, id) + {{n, id}} == edges + MeshEdges(done + {n}, id)
  {
    assert MeshEdges(done + {n}, id) == MeshEdges(done, id) + {{n, id}};
  }

  lemma MeshColorsStep(edgeColors: map<(NodeId, NodeId), Color>, done: set<NodeId>, n: NodeId, id: NodeId)
    requires n != id
    ensures (edgeColors + MeshColors(done, id))[(n, id) := Black] == edgeColors + MeshColors(done + {n}, id)
  {
    assert MeshColors(done + {n}, id) == MeshColors(done, id)[(n, id) := Black];
  }

  /** The target language of `change_color`, as a tagged value. */
  datatype Target = All | AllExcept(excluded: NodeId) | Single(id: NodeId)

  /** `s.split('-')[0]`: the text before the first '-'. */
  function FirstField(s: string): (f: string)
    ensures f <= s
    ensures '-' !in f
    ensures |f| == |s| || s[|f|] == '-'
  {
    if s == [] || s[0] == '-' then [] else [s[0]] + FirstField(s[1..])
  }

  /** How `change_color` reads its target string: "all" is tested first, then
      the "all-" prefix, whose excluded id is `split('-')[1]`, i.e. the first
      field after the prefix. */
  function ParseTarget(s: string): (t: Target)
    ensures t.All? <==> s == "all"
    ensures t.AllExcept? <==> s != "all" && |s| >= 4 && s[..4] == "all-"
    ensures t.AllExcept? ==>
      var w := TargetString(t);
      && '-' !in t.excluded && w <= s && (|w| == |s| || s[|w|] == '-')
    ensures t.Single? ==> TargetString(t) == s
  {
    if s == "all" then All
    else if |s| >= 4 && s[..4] == "all-" then
      var x := FirstField(s[4..]);
      assert s == "all-" + s[4..];
      AllExcept(x)
    else Single(s)
  }

  /** The string a caller writes for a target: the inverse of `ParseTarget`
      on well-formed targets. */
  function TargetString(t: Target): string
  {
    match t
    case All => "all"
    case AllExcept(x) => "all-" + x
    case Single(x) => x
  }

  /** A target its string denotes faithfully: an excluded id without '-', a
      single id that is neither "all" nor starts with "all-". */
  predicate WellFormedTarget(t: Target)
  {
    match t
    case All => true
    case AllExcept(x) => '-' !in x
    case Single(x) => x != "all" && !(|x| >= 4 && x[..4] == "all-")
  }

  /** Reading back the string of a target gives the target exactly when the
      target is well formed. */
  lemma TargetRoundTrip(t: Target)
    ensures ParseTarget(TargetString(t)) == t <==> WellFormedTarget(t)
  {
    if t.AllExcept? {
      ExcludedIdRoundTrip(t.excluded);
    }
  }

  /** Recolours the nodes a target names; only the colour map changes. */
  function Recolor(g: Graph, t: Target, c: Color): (r: Graph)
    ensures r.(colors := g.colors) == g
    ensures t.All? ==> forall n :: n in g.nodes ==> n in r.colors && r.colors[n] == c
    ensures t.AllExcept? ==> forall n :: n in g.nodes && n != t.excluded ==> n in r.colors && r.colors[n] == c
    ensures t.Single? && t.id in g.nodes ==> t.id in r.colors && r.colors[t.id] == c
    ensures forall n :: n in g.colors && n !in NamedSet(g, t) ==> n in r.colors && r.colors[n] == g.colors[n]
    ensures r.colors.Keys == g.colors.Keys + NamedSet(g, t)
  {
    match t
    case All => g.(colors := g.colors + (map n | n in g.nodes :: c))
    case AllExcept(x) => g.(colors := g.colors + (map n | n in g.nodes && n != x :: c))
    case Single(x) => if x in g.nodes then g.(colors := g.colors[x := c]) else g
  }

  /** The present nodes target `t` recolours. */
  function NamedSet(g: Graph, t: Target): set<NodeId>
  {
    match t
    case All => g.nodes
    case AllExcept(x) => g.nodes - {x}
    case Single(x) => g.nodes * {x}
  }

  /** `change_color` on its string target. */
  function ChangeColor(g: Graph, s: string, c: Color): (r: Graph)
    ensures r.nodes == g.nodes && r.positions == g.positions && r.edges == g.edges
    ensures r.edgeColors == g.edgeColors && r.canvasSize == g.canvasSize
    ensures g.nodes <= g.colors.Keys ==> r.colors.Keys == g.colors.Keys
    ensures s == "all" ==> forall n :: n in g.nodes ==> n in r.colors && r.colors[n] == c
    ensures s != "all" && |s| >= 4 && s[..4] == "all-" ==>
      var x := FirstField(s[4..]);
      && (forall n :: n in g.nodes && n != x ==> n in r.colors && r.colors[n] == c)
      && (x in g.colors ==> x in r.colors && r.colors[x] == g.colors[x])
    ensures s != "all" && !(|s| >= 4 && s[..4] == "all-") ==>
      if s in g.nodes then r.colors == g.colors[s := c] else r == g
  {
    Recolor(g, ParseTarget(s), c)
  }

  /** `remove_node`: a missing id changes nothing; otherwise the node, its
      position, its colour and every edge and edge colour touching it go. */
  function RemoveNode(g: Graph, id: NodeId): (r: Graph)
    ensures id !in g.nodes ==> r == g
    ensures r.nodes == g.nodes - {id}
    ensures id in g.nodes ==> id !in r.positions && id !in r.colors
    ensures id in g.nodes ==> forall e :: e in r.edges ==> id !in e
    ensures id in g.nodes ==> forall k :: k in r.edgeColors ==> k.0 != id && k.1 != id
    ensures forall n :: n in g.positions && n != id ==> n in r.positions && r.positions[n] == g.positions[n]
    ensures forall n :: n in g.colors && n != id ==> n in r.colors && r.colors[n] == g.colors[n]
    ensures forall e :: e in g.edges && id !in e ==> e in r.edges
    ensures forall k :: k in g.edgeColors && k.0 != id && k.1 != id ==> k in r.edgeColors && r.edgeColors[k] == g.edgeColors[k]
    ensures r.edges <= g.edges && r.edgeColors.Keys <= g.edgeColors.Keys && r.canvasSize == g.canvasSize
  {
    if id !in g.nodes then g
    else g.(nodes := g.nodes - {id},
            positions := g.positions - {id},
            colors := g.colors - {id},
            edges := (set e | e in g.edges && id !in e),
            edgeColors := (map k | k in g.edgeColors && k.0 != id && k.1 != id :: g.edgeColors[k]))
  }

  // ---------------------------------------------------------------------
  // The store invariant is preserved by every operation.

  lemma AddNodeKeepsValid(g: Graph, id: NodeId, p: Point)
    requires Valid(g) && (id in g.nodes || Placeable(g, p))
    ensures Valid(AddNode(g, id, p))
  {
    if id !in g.nodes {
      var r := AddNode(g, id, p);
      forall a, b | a in r.positions && b in r.positions && a != b
        ensures !TooClose(r.positions[a], r.positions[b])
      {
        if a == id {
          assert !TooClose(p, g.positions[b]);
        } else if b == id {
          assert !TooClose(p, g.positions[a]);
          assert Dist2(p, g.positions[a]) == Dist2(g.positions[a], p);
        }
      }
    }
  }

  lemma AddEdgeKeepsValid(g: Graph, a: NodeId, b: NodeId)
    requires Valid(g)
    ensures Valid(AddEdge(g, a, b))
  {
    if a in g.nodes && b in g.nodes {
      var r := AddEdge(g, a, b);
      assert EdgeSet(r.edgeColors) == EdgeSet(g.edgeColors) + {EdgeOf((a, b))};
    }
  }

  lemma CompleteEdgesForKeepsValid(g: Graph, id: NodeId)
    requires Valid(g)
    ensures Valid(CompleteEdgesFor(g, id))
  {
    if id in g.nodes {
      var r := CompleteEdgesFor(g, id);
      var added := MeshColors(g.nodes, id);
      forall e | e in EdgeSet(r.edgeColors) ensures e in r.edges {
        var k :| k in r.edgeColors && EdgeOf(k) == e;
        if k in added {
          assert e == {k.0, id};
        } else {
          assert k in g.edgeColors;
        }
      }
      forall e | e in r.edges ensures e in EdgeSet(r.edgeColors) {
        if e in g.edges {
          var k :| k in g.edgeColors && EdgeOf(k) == e;
          if k in added {
            assert EdgeOf(k) == EdgeOf((k.0, id));
          } else {
            assert k in r.edgeColors;
          }
        } else {
          var n :| n in g.nodes && n != id && e == {n, id};
          assert (n, id) in r.edgeColors && EdgeOf((n, id)) == e;
        }
      }
    }
  }

  lemma ChangeColorKeepsValid(g: Graph, s: string, c: Color)
    requires Valid(g)
    ensures Valid(ChangeColor(g, s, c))
  {
  }

  lemma RemoveNodeKeepsValid(g: Graph, id: NodeId)
    requires Valid(g)
    ensures Valid(RemoveNode(g, id))
  {
    if id in g.nodes {
      var r := RemoveNode(g, id);
      FilteredEdgeSet(g.edgeColors, id);
      assert r.edges == (set e | e in g.edges && id !in e);
      assert r.edgeColors == (map k | k in g.edgeColors && k.0 != id && k.1 != id :: g.edgeColors[k]);
    }
  }

  /** Dropping the edge-colour keys that touch `id` drops exactly the edges
      that contain it. */
  lemma FilteredEdgeSet(edgeColors: map<(NodeId, NodeId), Color>, id: NodeId)
    ensures EdgeSet(map k | k in edgeColors && k.0 != id && k.1 != id :: edgeColors[k])
         == (set e | e in EdgeSet(edgeColors) && id !in e)
  {
    var m := map k | k in edgeColors && k.0 != id && k.1 != id :: edgeColors[k];
    forall e | e in EdgeSet(edgeColors) && id !in e ensures e in EdgeSet(m) {
      var k :| k in edgeColors && EdgeOf(k) == e;
      assert k.0 in e && k.1 in e;
      assert k in m;
    }
  }

  // ---------------------------------------------------------------------
  // Partners: inverse, idempotence and the placement search.

  /** Adding an id twice is the same as adding it once. */
  lemma AddNodeIdempotent(g: Graph, id: NodeId, p: Point, q: Point)
    requires id in g.nodes || Placeable(g, p)
    ensures AddNode(AddNode(g, id, p), id, q) == AddNode(g, id, p)
  {
  }

  /** Removing a node just added restores the store. */
  lemma RemoveUndoesAdd(g: Graph, id: NodeId, p: Point)
    requires Valid(g) && id !in g.nodes && Placeable(g, p)
    ensures RemoveNode(AddNode(g, id, p), id) == g
  {
    var a := g.(nodes := g.nodes + {id}, colors := g.colors[id := Gray], positions := g.positions[id := p]);
    assert AddNode(g, id, p) == a;
    forall e | e in g.edges ensures id !in e {
      assert e <= g.nodes;
    }
    forall k | k in g.edgeColors ensures k.0 != id && k.1 != id {
      assert EdgeOf(k) in g.edges;
    }
    assert (set e | e in a.edges && id !in e) == g.edges;
    assert (map k | k in a.edgeColors && k.0 != id && k.1 != id :: a.edgeColors[k]) == g.edgeColors;
    assert a.positions - {id} == g.positions;
    assert a.colors - {id} == g.colors;
    assert a.nodes - {id} == g.nodes;
  }

  /** The point the placement loop accepts from in-canvas samples is one
      `add_node` may store. */
  lemma AllocateIsPlaceable(g: Graph, samples: seq<Point>)
    requires forall i :: 0 <= i < |samples| ==> InCanvas(g.canvasSize, samples[i])
    ensures Allocate(g.positions, samples).Some? ==> Placeable(g, samples[Allocate(g.positions, samples).value])
    ensures (exists i :: 0 <= i < |samples| && Placeable(g, samples[i])) ==> Allocate(g.positions, samples).Some?
  {
  }

  /** "all-" followed by `w` names exactly `w` as the excluded node if and only
      if `w` has no '-'. */
  lemma {:induction false} ExcludedIdRoundTrip(w: NodeId)
    ensures ParseTarget("all-" + w) == AllExcept(w) <==> '-' !in w
  {
    var s := "all-" + w;
    assert s != "all";
    assert s[..4] == "all-";
    assert s[4..] == w;
    FirstFieldWhole(w);
  }

  lemma {:induction false} FirstFieldWhole(s: string)
    ensures FirstField(s) == s <==> '-' !in s
  {
    if s != [] && s[0] != '-' {
      FirstFieldWhole(s[1..]);
      assert s == [s[0]] + s[1..];
    }
  }

  /** An id without '-' other than "all" names itself as a single target. */
  lemma PlainIdIsSingle(w: NodeId)
    requires '-' !in w && w != "all"
    ensures ParseTarget(w) == Single(w)
  {
    if |w| >= 4 {
      assert w[..4][3] == w[3];
    }
  }
}
