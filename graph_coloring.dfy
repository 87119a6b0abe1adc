/**
  The objects of graph-coloring.js held in one arena: a vertex is a handle
  (an index), its `color` and `edges` fields are entries of the arena's
  `colors` and `incident` sequences, and an edge is a handle into `edges`.
  `colorVertex` and `colorGraph` update the colours in place, as the source
  does, and are proved to compute the functions of ColoringSpec.
*/
module GraphColoring {
  import opened ColoringSpec

  /** The `Graph` aggregate: the vertices to colour, in the order the outer
      loop visits them, and the edges (kept for display only) */
  datatype Graph = Graph(vertices: seq<nat>, edges: seq<nat>)

  class Arena {
    /** `Vertex.name` of each vertex handle */
    var names: seq<string>
    /** `Vertex.color` of each vertex handle, 0 for `null` */
    var colors: seq<nat>
    /** Every `Edge` constructed, indexed by edge handle */
    var edges: seq<Edge>
    /** `Vertex.edges` of each vertex handle */
    var incident: seq<seq<nat>>

    /** The adjacency structure */
    function Structure(): Shape
      reads this
    {
      Shape(edges, incident)
    }

    /** Every vertex has a name, a colour and an incident list; every edge
        joins existing vertices; and every incident list holds exactly the
        edges touching its vertex */
    ghost predicate Valid()
      reads this
    {
      && |names| == |colors|
      && Bounded(Structure(), |colors|)
      && Registered(Structure())
    }

    /** An empty arena, before any vertex or edge is constructed */
    constructor ()
      ensures Valid()
      ensures names == [] && colors == [] && edges == [] && incident == []
    {
      names, colors, edges, incident := [], [], [], [];
    }

    /** `new Vertex(name)`: an uncoloured vertex with no edges */
    method NewVertex(name: string) returns (v: nat)
      requires Valid()
      modifies this
      ensures Valid()
      ensures v == old(|colors|)
      ensures names == old(names) + [name] && colors == old(colors) + [0]
      ensures incident == old(incident) + [[]] && edges == old(edges)
    {
      v := |colors|;
      NewVertexShape(Structure(), |colors|);
      names := names + [name];
      colors := colors + [0];
      incident := incident + [[]];
    }

    /** `new Edge(name, a, b)`: the edge is appended to the arena and pushes
        itself onto `a.edges` and then onto `b.edges` */
    method NewEdge(name: string, a: nat, b: nat) returns (e: nat)
      requires Valid() && a < |colors| && b < |colors|
      modifies this
      ensures Valid()
      ensures e == old(|edges|) && edges == old(edges) + [Edge(name, a, b)]
      ensures incident == Registering(old(incident), e, a, b)
      ensures names == old(names) && colors == old(colors)
    {
      e := |edges|;
      var ed := Edge(name, a, b);
      RegisteringAppends(incident, e, a, b);
      NewEdgeShape(Structure(), |colors|, name, a, b);
      edges := edges + [ed];
      incident := incident[a := incident[a] + [e]];
      incident := incident[b := incident[b] + [e]];
    }

    /** `colorVertex(vertex)`: try colours 1, 2, ... until one is held by no
        opposite endpoint of the vertex's edges; a coloured vertex is left alone */
    method ColorVertex(v: nat)
      requires Valid() && v < |colors|
      modifies this`colors
      ensures Valid()
      ensures colors == VertexColored(Structure(), old(colors), v)
    {
      if colors[v] != 0 {
        return;
      }
      ghost var s := Structure();
      var inc := incident[v];
      ghost var used := UsedColors(s, colors, v, inc);
      ghost var least := Mex(used, 1);
      MexIsLeast(used, 1);
      var color := 1;
      while colors[v] == 0
        invariant 1 <= color <= least
        invariant |colors| == |old(colors)|
        invariant colors[v] == 0 ==> colors == old(colors)
        invariant colors[v] != 0 ==> colors == old(colors)[v := color] && color !in used
        decreases (if colors[v] == 0 then 1 else 0), least - color
      {
        var found := false;
        for i := 0 to |inc|
          invariant !found
          invariant forall j | 0 <= j < i :: colors[Opposite(edges[inc[j]], v)] != color
        {
          var edge := edges[inc[i]];
          var opposite := if edge.b == v then edge.a else edge.b;
          if colors[opposite] != 0 && colors[opposite] == color {
            UsedColorsMembers(s, colors, v, inc, color);
            found := true;
            break;
          }
        }
        if !found {
          UsedColorsMembers(s, colors, v, inc, color);
          colors := colors[v := color];
        } else {
          color := color + 1;
        }
      }
      MexUnique(used, 1, color);
    }

    /** One iteration of the outer loop of `colorGraph`: an uncoloured
        `vertex` is coloured, then each still uncoloured opposite endpoint of
        its edges, in the order of those edges */
    method VisitVertex(vertex: nat)
      requires Valid() && vertex < |colors|
      modifies this`colors
      ensures Valid()
      ensures colors == Visit(Structure(), old(colors), vertex)
    {
      if colors[vertex] != 0 {
        return;
      }
      ghost var s := Structure();
      ColorVertex(vertex);
      ghost var afterVertex := colors;
      var inc := incident[vertex];
      for j := 0 to |inc|
        invariant Valid() && Structure() == s && |colors| == |old(colors)|
        invariant OppositesColored(s, colors, vertex, inc[j..]) == OppositesColored(s, afterVertex, vertex, inc)
      {
        assert inc[j..][1..] == inc[j + 1..];
        var edge := edges[inc[j]];
        var opposite := if edge.b == vertex then edge.a else edge.b;
        if colors[opposite] != 0 {
          continue;
        }
        ColorVertex(opposite);
      }
    }

    /** `colorGraph(graph)`: visit the listed vertices in order. Every listed
        vertex ends up coloured, colours already set are kept, a proper
        colouring stays proper and a degree-bounded one degree-bounded */
    method ColorGraph(graph: Graph)
      requires Valid()
      requires forall i | 0 <= i < |graph.vertices| :: graph.vertices[i] < |colors|
      modifies this`colors
      ensures Valid()
      ensures colors == GraphColored(Structure(), old(colors), graph.vertices)
      ensures Extends(old(colors), colors)
      ensures forall i | 0 <= i < |graph.vertices| :: colors[graph.vertices[i]] != 0
      ensures Proper(Structure(), old(colors)) ==> Proper(Structure(), colors)
      ensures DegreeBounded(Structure(), old(colors)) ==> DegreeBounded(Structure(), colors)
    {
      ghost var s := Structure();
      var order := graph.vertices;
      for k := 0 to |order|
        invariant Valid() && Structure() == s && |colors| == |old(colors)|
        invariant GraphColored(s, colors, order[k..]) == GraphColored(s, old(colors), order)
      {
        assert order[k..][1..] == order[k + 1..];
        VisitVertex(order[k]);
      }
      GraphColoredSound(s, old(colors), order);
      GraphColoredFrame(s, old(colors), order);
    }
  }

  /** The edges of the sample graph (graph-coloring.js lines 83-88), between
      the vertices v1 .. v5 with handles 0 .. 4 */
  function SampleEdges(): seq<Edge> {
    [Edge("e1", 0, 1), Edge("e2", 0, 2), Edge("e3", 0, 3),
     Edge("e4", 1, 2), Edge("e5", 2, 3), Edge("e6", 3, 4)]
  }

  /** The incident lists of v1 .. v5 once e1 .. e6 have registered themselves
      in turn, each pushing its handle onto its first and then its second
      endpoint's list */
  function SampleIncident(): seq<seq<nat>> {
    Registering(Registering(Registering(Registering(Registering(Registering(
      [[], [], [], [], []], 0, 0, 1), 1, 0, 2), 2, 0, 3), 3, 1, 2), 4, 2, 3), 5, 3, 4)
  }

  /** The sample incident lists, written out: v1 holds e1 e2 e3, v2 holds
      e1 e4, v3 holds e2 e4 e5, v4 holds e3 e5 e6 and v5 holds e6 */
  lemma SampleIncidentLists()
    ensures |SampleIncident()| == 5
    ensures SampleIncident()[0] == [0, 1, 2] && SampleIncident()[1] == [0, 3]
    ensures SampleIncident()[2] == [1, 3, 4] && SampleIncident()[3] == [2, 4, 5]
    ensures SampleIncident()[4] == [5]
  {
    var r0: seq<seq<nat>> := [[], [], [], [], []];
    var r1 := Registering(r0, 0, 0, 1);
    RegisteringAppends(r0, 0, 0, 1);
    var r2 := Registering(r1, 1, 0, 2);
    RegisteringAppends(r1, 1, 0, 2);
    var r3 := Registering(r2, 2, 0, 3);
    RegisteringAppends(r2, 2, 0, 3);
    var r4 := Registering(r3, 3, 1, 2);
    RegisteringAppends(r3, 3, 1, 2);
    var r5 := Registering(r4, 4, 2, 3);
    RegisteringAppends(r4, 4, 2, 3);
    RegisteringAppends(r5, 5, 3, 4);
  }

  /** The sample graph's adjacency structure */
  function SampleShape(): (s: Shape)
    ensures |s.incident| == 5
    ensures s.incident[0] == [0, 1, 2] && s.incident[1] == [0, 3]
    ensures s.incident[2] == [1, 3, 4] && s.incident[3] == [2, 4, 5]
    ensures s.incident[4] == [5]
    ensures Bounded(s, 5)
  {
    SampleIncidentLists();
    Shape(SampleEdges(), SampleIncident())
  }

  /** v1 takes 1, then v2 takes 2 as v1 holds 1 */
  lemma SampleFirstColors()
    ensures VertexColored(SampleShape(), [0, 0, 0, 0, 0], 0) == [1, 0, 0, 0, 0]
    ensures VertexColored(SampleShape(), [1, 0, 0, 0, 0], 1) == [1, 2, 0, 0, 0]
  {
    var s := SampleShape();
    assert UsedColors(s, [0, 0, 0, 0, 0], 0, [0, 1, 2]) == {};
    assert UsedColors(s, [1, 0, 0, 0, 0], 1, [0, 3]) == {1};
    assert Mex({1}, 1) == 2 by { assert {1} - {1} == {}; }
  }

  /** v3 takes 3 as v1 and v2 hold 1 and 2 */
  lemma SampleThirdColor()
    ensures VertexColored(SampleShape(), [1, 2, 0, 0, 0], 2) == [1, 2, 3, 0, 0]
  {
    var s := SampleShape();
    assert UsedColors(s, [1, 2, 0, 0, 0], 2, [1, 3, 4]) == {1, 2};
    assert Mex({1, 2}, 1) == 3 by { assert {1, 2} - {1} == {2}; assert {2} - {2} == {}; }
  }

  /** v4 takes 2 as v1 and v3 hold 1 and 3 */
  lemma SampleFourthColor()
    ensures VertexColored(SampleShape(), [1, 2, 3, 0, 0], 3) == [1, 2, 3, 2, 0]
  {
    var s := SampleShape();
    assert UsedColors(s, [1, 2, 3, 0, 0], 3, [2, 4, 5]) == {1, 3};
    assert Mex({1, 3}, 1) == 2 by { assert {1, 3} - {1} == {3}; }
  }

  /** Visiting v1 first colours v1 and then, in the order of its edges, its
      neighbours v2, v3 and v4 */
  lemma SampleFirstVisit()
    ensures Visit(SampleShape(), [0, 0, 0, 0, 0], 0) == [1, 2, 3, 2, 0]
  {
    var s := SampleShape();
    SampleFirstColors();
    SampleThirdColor();
    SampleFourthColor();
    assert OppositesColored(s, [1, 2, 3, 2, 0], 0, []) == [1, 2, 3, 2, 0];
    assert OppositesColored(s, [1, 2, 3, 0, 0], 0, [2]) == [1, 2, 3, 2, 0];
    assert OppositesColored(s, [1, 2, 0, 0, 0], 0, [1, 2]) == [1, 2, 3, 2, 0];
    assert OppositesColored(s, [1, 0, 0, 0, 0], 0, [0, 1, 2]) == [1, 2, 3, 2, 0];
  }

  /** Visiting v5 last: it takes 1, as its only neighbour v4 holds 2 */
  lemma SampleLastVisit()
    ensures Visit(SampleShape(), [1, 2, 3, 2, 0], 4) == [1, 2, 3, 2, 1]
  {
    var s := SampleShape();
    assert UsedColors(s, [1, 2, 3, 2, 0], 4, [5]) == {2};
    assert VertexColored(s, [1, 2, 3, 2, 0], 4) == [1, 2, 3, 2, 1];
    assert OppositesColored(s, [1, 2, 3, 2, 1], 4, []) == [1, 2, 3, 2, 1];
  }

  /** Colouring the sample graph in the order v1 .. v5 gives v1 = 1, v2 = 2,
      v3 = 3, v4 = 2 and v5 = 1: after the visit of v1, the vertices v2, v3
      and v4 are skipped as coloured, and v5 takes 1 (its only neighbour v4
      holds 2) */
  lemma SampleColoring()
    ensures GraphColored(SampleShape(), [0, 0, 0, 0, 0], [0, 1, 2, 3, 4]) == [1, 2, 3, 2, 1]
  {
    var s := SampleShape();
    var c4 := [1, 2, 3, 2, 0];
    var c5 := [1, 2, 3, 2, 1];
    SampleFirstVisit();
    SampleLastVisit();
    var order := [0, 1, 2, 3, 4];
    assert order[1..] == [1, 2, 3, 4];
    GraphColoredSkips(s, c4, [1, 2, 3, 4], 3);
    assert [1, 2, 3, 4][3..] == [4];
    assert GraphColored(s, c5, []) == c5;
  }

  /** Lines 78-82 of graph-coloring.js: the vertices v1 .. v5, with handles
      0 .. 4, all uncoloured */
  method SampleVertices() returns (arena: Arena)
    ensures fresh(arena) && arena.Valid()
    ensures arena.colors == [0, 0, 0, 0, 0]
    ensures arena.edges == [] && arena.incident == [[], [], [], [], []]
  {
    arena := new Arena();
    var v1 := arena.NewVertex("v1");
    var v2 := arena.NewVertex("v2");
    var v3 := arena.NewVertex("v3");
    var v4 := arena.NewVertex("v4");
    var v5 := arena.NewVertex("v5");
  }

  /** Lines 83-85 of graph-coloring.js: the edges e1, e2 and e3 from v1 */
  method SampleEdgesFromFirst(arena: Arena)
    requires arena.Valid() && arena.colors == [0, 0, 0, 0, 0]
    requires arena.edges == [] && arena.incident == [[], [], [], [], []]
    modifies arena
    ensures arena.Valid() && arena.colors == [0, 0, 0, 0, 0]
    ensures arena.edges == [Edge("e1", 0, 1), Edge("e2", 0, 2), Edge("e3", 0, 3)]
    ensures arena.incident == Registering(Registering(Registering(
              [[], [], [], [], []], 0, 0, 1), 1, 0, 2), 2, 0, 3)
  {
    var e1 := arena.NewEdge("e1", 0, 1);
    var e2 := arena.NewEdge("e2", 0, 2);
    var e3 := arena.NewEdge("e3", 0, 3);
  }

  /** Lines 86-88 of graph-coloring.js: the edges e4, e5 and e6 */
  method SampleEdgesRest(arena: Arena)
    requires arena.Valid() && arena.colors == [0, 0, 0, 0, 0]
    requires arena.edges == [Edge("e1", 0, 1), Edge("e2", 0, 2), Edge("e3", 0, 3)]
    requires arena.incident == Registering(Registering(Registering(
               [[], [], [], [], []], 0, 0, 1), 1, 0, 2), 2, 0, 3)
    modifies arena
    ensures arena.Valid() && arena.colors == [0, 0, 0, 0, 0]
    ensures arena.Structure() == SampleShape()
  {
    var e4 := arena.NewEdge("e4", 1, 2);
    var e5 := arena.NewEdge("e5", 2, 3);
    var e6 := arena.NewEdge("e6", 3, 4);
  }

  /** The sample script up to `colorGraph` (graph-coloring.js lines 78-88):
      five vertices and six edges, none coloured yet */
  method SampleBuild() returns (arena: Arena)
    ensures fresh(arena) && arena.Valid()
    ensures arena.colors == [0, 0, 0, 0, 0] && arena.Structure() == SampleShape()
  {
    arena := SampleVertices();
    SampleEdgesFromFirst(arena);
    SampleEdgesRest(arena);
  }

  /** The script at graph-coloring.js lines 78-91: build the sample graph,
      colour it and read the colours back */
  method SampleGraph() returns (colors: seq<nat>)
    ensures colors == [1, 2, 3, 2, 1]
  {
    var arena := SampleBuild();
    var graph := Graph([0, 1, 2, 3, 4], [0, 1, 2, 3, 4, 5]);
    arena.ColorGraph(graph);
    SampleColoring();
    colors := arena.colors;
  }
}
