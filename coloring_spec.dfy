/**
  The greedy colouring of graph-coloring.js, stated as pure functions over the
  graph's adjacency structure and a colour assignment (one entry per vertex
  handle, 0 standing for the source's `null`), together with the properties the
  algorithm promises: every colour it picks is the lowest one free among the
  vertex's coloured neighbours, colours once set are kept, adjacent distinct
  vertices never share a colour, and every listed vertex ends up coloured.
*/
module ColoringSpec {

  /** An edge: its name and the handles of its endpoints `a` and `b` */
  datatype Edge = Edge(name: string, a: nat, b: nat)

  /** The part of the graph that colouring never changes: every edge
      constructed so far, and for each vertex handle the handles of its
      incident edges (the source's `vertex.edges`) in registration order */
  datatype Shape = Shape(edges: seq<Edge>, incident: seq<seq<nat>>)

  /** The endpoint of `e` opposite to `v` (`edge.b === vertex ? edge.a : edge.b`);
      for a self-loop it is `v` itself */
  function Opposite(e: Edge, v: nat): (o: nat)
    ensures o == e.a || o == e.b
    ensures v == e.a && v != e.b ==> o == e.b
    ensures v == e.b ==> o == e.a
  {
    if e.b == v then e.a else e.b
  }

  /** Every entry of `inc` is the handle of an edge of `s` */
  predicate EdgeHandles(s: Shape, inc: seq<nat>) {
    forall i | 0 <= i < |inc| :: inc[i] < |s.edges|
  }

  /** `s` fits an assignment of `n` vertices: every handle it holds is in range */
  predicate Bounded(s: Shape, n: nat) {
    && |s.incident| == n
    && (forall e | 0 <= e < |s.edges| :: s.edges[e].a < n && s.edges[e].b < n)
    && (forall v | 0 <= v < n :: EdgeHandles(s, s.incident[v]))
  }

  /** The incident list of each vertex holds exactly the edges that have the
      vertex as an endpoint: every edge is registered with both of its
      endpoints, and every registered edge touches the vertex */
  predicate Registered(s: Shape)
    requires Bounded(s, |s.incident|)
  {
    && (forall e | 0 <= e < |s.edges| :: Listed(s, e))
    && (forall v, i | 0 <= v < |s.incident| && 0 <= i < |s.incident[v]| ::
          s.edges[s.incident[v][i]].a == v || s.edges[s.incident[v][i]].b == v)
  }

  /** Edge `e` is on the lists of both of its endpoints */
  predicate Listed(s: Shape, e: nat)
    requires e < |s.edges| && s.edges[e].a < |s.incident| && s.edges[e].b < |s.incident|
  {
    e in s.incident[s.edges[e].a] && e in s.incident[s.edges[e].b]
  }

  // ---------------------------------------------------------------------
  // Registration of edges (the Edge constructor)
  // ---------------------------------------------------------------------

  /** The handle `e` of an edge from `a` to `b`, as often as that edge touches
      `v`: once per endpoint */
  function Hits(a: nat, b: nat, e: nat, v: nat): seq<nat> {
    (if a == v then [e] else []) + (if b == v then [e] else [])
  }

  /** The incident lists after edge `e` with endpoints `a`, `b` pushes itself
      onto `a`'s list and then onto `b`'s */
  function Registering(incident: seq<seq<nat>>, e: nat, a: nat, b: nat): (r: seq<seq<nat>>)
    requires a < |incident| && b < |incident|
    ensures |r| == |incident|
    ensures r[a] != [] && r[a][|r[a]| - 1] == e && r[b] != [] && r[b][|r[b]| - 1] == e
  {
    var withA := incident[a := incident[a] + [e]];
    withA[b := withA[b] + [e]]
  }

  /** Registering an edge appends it to the end of the lists of its endpoints,
      twice to the same list for a self-loop, and changes no other list */
  lemma RegisteringAppends(incident: seq<seq<nat>>, e: nat, a: nat, b: nat)
    requires a < |incident| && b < |incident|
    ensures |Registering(incident, e, a, b)| == |incident|
    ensures forall v | 0 <= v < |incident| ::
      Registering(incident, e, a, b)[v] == incident[v] + Hits(a, b, e, v)
  {
    var r := Registering(incident, e, a, b);
    forall v | 0 <= v < |incident|
      ensures r[v] == incident[v] + Hits(a, b, e, v)
    {
      if a == b && v == a {
        assert r[v] == incident[v] + [e] + [e];
      }
    }
  }

  /** A new vertex has no edges, so the shape stays well formed */
  lemma NewVertexShape(s: Shape, n: nat)
    requires Bounded(s, n) && Registered(s)
    ensures var t := Shape(s.edges, s.incident + [[]]);
      Bounded(t, n + 1) && Registered(t)
  {
    var t := Shape(s.edges, s.incident + [[]]);
    assert forall v | 0 <= v < n :: t.incident[v] == s.incident[v];
    forall e | 0 <= e < |s.edges|
      ensures Listed(t, e)
    {
      assert Listed(s, e);
    }
  }

  /** Constructing edge `e` from `a` to `b` keeps the shape well formed: the
      new edge is registered with both endpoints, and every list still holds
      only edges touching its vertex */
  lemma NewEdgeShape(s: Shape, n: nat, name: string, a: nat, b: nat)
    requires Bounded(s, n) && Registered(s) && a < n && b < n
    ensures var t := Shape(s.edges + [Edge(name, a, b)], Registering(s.incident, |s.edges|, a, b));
      Bounded(t, n) && Registered(t)
  {
    NewEdgeBounded(s, n, name, a, b);
    NewEdgeRegistered(s, n, name, a, b);
  }

  /** After registration every handle is still in range, and every list
      entry still names an edge touching the list's vertex */
  lemma NewEdgeBounded(s: Shape, n: nat, name: string, a: nat, b: nat)
    requires Bounded(s, n) && Registered(s) && a < n && b < n
    ensures var t := Shape(s.edges + [Edge(name, a, b)], Registering(s.incident, |s.edges|, a, b));
      && Bounded(t, n)
      && (forall v, i | 0 <= v < n && 0 <= i < |t.incident[v]| ::
            t.edges[t.incident[v][i]].a == v || t.edges[t.incident[v][i]].b == v)
  {
    var e := |s.edges|;
    var t := Shape(s.edges + [Edge(name, a, b)], Registering(s.incident, e, a, b));
    RegisteringAppends(s.incident, e, a, b);
    forall v, i | 0 <= v < n && 0 <= i < |t.incident[v]|
      ensures t.incident[v][i] < |t.edges|
      ensures t.edges[t.incident[v][i]].a == v || t.edges[t.incident[v][i]].b == v
    {
      if i < |s.incident[v]| {
        assert t.incident[v][i] == s.incident[v][i];
        assert t.edges[s.incident[v][i]] == s.edges[s.incident[v][i]];
      }
    }
  }

  /** After registration every edge, old and new, is on the lists of both of
      its endpoints */
  lemma NewEdgeRegistered(s: Shape, n: nat, name: string, a: nat, b: nat)
    requires Bounded(s, n) && Registered(s) && a < n && b < n
    ensures var t := Shape(s.edges + [Edge(name, a, b)], Registering(s.incident, |s.edges|, a, b));
      && |t.incident| == n
      && (forall d | 0 <= d < |t.edges| :: t.edges[d].a < n && t.edges[d].b < n)
      && (forall d | 0 <= d < |t.edges| :: Listed(t, d))
  {
    var e := |s.edges|;
    var t := Shape(s.edges + [Edge(name, a, b)], Registering(s.incident, e, a, b));
    RegisteringAppends(s.incident, e, a, b);
    forall d | 0 <= d < |t.edges|
      ensures t.edges[d].a < n && t.edges[d].b < n && Listed(t, d)
    {
      if d < e {
        assert t.edges[d] == s.edges[d];
        assert Listed(s, d);
      }
    }
  }

  // ---------------------------------------------------------------------
  // colorVertex
  // ---------------------------------------------------------------------

  /** The colours of the coloured opposite endpoints of the edges `inc` of `v` */
  function UsedColors(s: Shape, colors: seq<nat>, v: nat, inc: seq<nat>): (used: set<nat>)
    requires Bounded(s, |colors|) && EdgeHandles(s, inc)
    ensures 0 !in used
    decreases inc
  {
    if inc == [] then {}
    else
      var o := Opposite(s.edges[inc[0]], v);
      (if colors[o] != 0 then {colors[o]} else {}) + UsedColors(s, colors, v, inc[1..])
  }

  /** Some opposite endpoint of the edges `inc` of `v` holds `c` (the scan of
      `colorVertex` sets `found`) */
  predicate HeldOpposite(s: Shape, colors: seq<nat>, v: nat, inc: seq<nat>, c: nat)
    requires Bounded(s, |colors|) && EdgeHandles(s, inc)
  {
    exists i | 0 <= i < |inc| :: colors[Opposite(s.edges[inc[i]], v)] == c
  }

  /** A colour is used around `v` exactly when it is the (non-null) colour of
      the opposite endpoint of one of the edges */
  lemma {:induction false} UsedColorsMembers(s: Shape, colors: seq<nat>, v: nat, inc: seq<nat>, c: nat)
    requires Bounded(s, |colors|) && EdgeHandles(s, inc)
    ensures c in UsedColors(s, colors, v, inc) <==> c != 0 && HeldOpposite(s, colors, v, inc, c)
    decreases inc
  {
    if inc != [] {
      var tail := inc[1..];
      UsedColorsMembers(s, colors, v, tail, c);
      if c != 0 && exists i | 0 <= i < |inc| :: colors[Opposite(s.edges[inc[i]], v)] == c {
        var i :| 0 <= i < |inc| && colors[Opposite(s.edges[inc[i]], v)] == c;
        if i > 0 {
          assert tail[i - 1] == inc[i];
        }
      }
      if c in UsedColors(s, colors, v, tail) {
        var i :| 0 <= i < |tail| && colors[Opposite(s.edges[tail[i]], v)] == c;
        assert inc[i + 1] == tail[i];
      }
    }
  }

  /** There are at most as many used colours as edges scanned */
  lemma {:induction false} UsedColorsSize(s: Shape, colors: seq<nat>, v: nat, inc: seq<nat>)
    requires Bounded(s, |colors|) && EdgeHandles(s, inc)
    ensures |UsedColors(s, colors, v, inc)| <= |inc|
    decreases inc
  {
    if inc != [] {
      UsedColorsSize(s, colors, v, inc[1..]);
    }
  }

  /** The least colour `>= c` that is not in `used` */
  function Mex(used: set<nat>, c: nat): (r: nat)
    ensures c <= r && r !in used
    decreases |used|
  {
    if c in used then Mex(used - {c}, c + 1) else c
  }

  /** `Mex(used, c)` is at least `c`, is not in `used`, every colour from `c`
      up to it is in `used`, and it exceeds `c` by at most `|used|` */
  lemma {:induction false} MexIsLeast(used: set<nat>, c: nat)
    ensures c <= Mex(used, c) <= c + |used|
    ensures Mex(used, c) !in used
    ensures forall k :: c <= k < Mex(used, c) ==> k in used
    decreases |used|
  {
    if c in used {
      MexIsLeast(used - {c}, c + 1);
      forall k | c <= k < Mex(used, c)
        ensures k in used
      {
        if k > c {
          assert k in used - {c};
        }
      }
    }
  }

  /** The least-free property determines `Mex`: a colour `r >= c` outside
      `used` with every colour from `c` below it in `used` is `Mex(used, c)` */
  lemma {:induction false} MexUnique(used: set<nat>, c: nat, r: nat)
    requires c <= r && r !in used
    requires forall k :: c <= k < r ==> k in used
    ensures Mex(used, c) == r
    decreases |used|
  {
    if c < r {
      assert c in used;
      MexUnique(used - {c}, c + 1, r);
    }
  }

  /** The colour `colorVertex` gives `v`: the lowest positive colour that no
      coloured opposite endpoint of `v`'s edges holds */
  function LeastFreeColor(s: Shape, colors: seq<nat>, v: nat): (r: nat)
    requires Bounded(s, |colors|) && v < |colors|
    ensures r !in UsedColors(s, colors, v, s.incident[v])
  {
    Mex(UsedColors(s, colors, v, s.incident[v]), 1)
  }

  /** The colour picked for `v` is positive, at most the number of `v`'s edges
      plus one, differs from the colour of every opposite endpoint, and every
      smaller positive colour is held by some opposite endpoint */
  lemma LeastFreeColorIsLeast(s: Shape, colors: seq<nat>, v: nat)
    requires Bounded(s, |colors|) && v < |colors|
    ensures 1 <= LeastFreeColor(s, colors, v) <= |s.incident[v]| + 1
    ensures forall i | 0 <= i < |s.incident[v]| ::
      colors[Opposite(s.edges[s.incident[v][i]], v)] != LeastFreeColor(s, colors, v)
    ensures forall k | 1 <= k < LeastFreeColor(s, colors, v) :: HeldOpposite(s, colors, v, s.incident[v], k)
  {
    var inc := s.incident[v];
    var used := UsedColors(s, colors, v, inc);
    var r := LeastFreeColor(s, colors, v);
    MexIsLeast(used, 1);
    UsedColorsSize(s, colors, v, inc);
    UsedColorsMembers(s, colors, v, inc, r);
    forall k | 1 <= k < r
      ensures HeldOpposite(s, colors, v, inc, k)
    {
      assert k in used;
      UsedColorsMembers(s, colors, v, inc, k);
    }
  }

  /** The assignment after `colorVertex(v)`: unchanged if `v` is coloured,
      otherwise `v` gets its least free colour. Either way `v` ends coloured,
      every colour already set is kept and no other vertex changes */
  function VertexColored(s: Shape, colors: seq<nat>, v: nat): (r: seq<nat>)
    requires Bounded(s, |colors|) && v < |colors|
    ensures |r| == |colors| && r[v] != 0
    ensures Extends(colors, r)
    ensures forall u | 0 <= u < |colors| && u != v :: r[u] == colors[u]
  {
    if colors[v] != 0 then colors else colors[v := LeastFreeColor(s, colors, v)]
  }

  // ---------------------------------------------------------------------
  // colorGraph
  // ---------------------------------------------------------------------

  /** The assignment after the neighbour pass of `colorGraph` over the edges
      `inc` of `v`: each still uncoloured opposite endpoint is coloured in turn */
  function OppositesColored(s: Shape, colors: seq<nat>, v: nat, inc: seq<nat>): (r: seq<nat>)
    requires Bounded(s, |colors|) && EdgeHandles(s, inc)
    ensures |r| == |colors| && Extends(colors, r)
    decreases inc
  {
    if inc == [] then colors
    else
      var o := Opposite(s.edges[inc[0]], v);
      OppositesColored(s, if colors[o] != 0 then colors else VertexColored(s, colors, o), v, inc[1..])
  }

  /** One iteration of the outer loop of `colorGraph` at vertex `v` */
  function Visit(s: Shape, colors: seq<nat>, v: nat): (r: seq<nat>)
    requires Bounded(s, |colors|) && v < |colors|
    ensures |r| == |colors| && Extends(colors, r)
  {
    if colors[v] != 0 then colors
    else OppositesColored(s, VertexColored(s, colors, v), v, s.incident[v])
  }

  /** The assignment after `colorGraph` visits the vertices `order` in turn */
  function GraphColored(s: Shape, colors: seq<nat>, order: seq<nat>): (r: seq<nat>)
    requires Bounded(s, |colors|) && forall i | 0 <= i < |order| :: order[i] < |colors|
    ensures |r| == |colors| && Extends(colors, r)
    decreases order
  {
    if order == [] then colors
    else GraphColored(s, Visit(s, colors, order[0]), order[1..])
  }

  /** `colorGraph` passes over a prefix of already coloured vertices without
      changing anything */
  lemma {:induction false} GraphColoredSkips(s: Shape, colors: seq<nat>, order: seq<nat>, k: nat)
    requires Bounded(s, |colors|) && forall i | 0 <= i < |order| :: order[i] < |colors|
    requires k <= |order| && forall i | 0 <= i < k :: colors[order[i]] != 0
    ensures GraphColored(s, colors, order) == GraphColored(s, colors, order[k..])
    decreases k
  {
    if k > 0 {
      GraphColoredSkips(s, colors, order[1..], k - 1);
      assert order[1..][k - 1..] == order[k..];
    }
  }

  // ---------------------------------------------------------------------
  // Properties of the colouring
  // ---------------------------------------------------------------------

  /** `after` keeps every colour that `before` had set */
  predicate Extends(before: seq<nat>, after: seq<nat>) {
    |after| == |before| && forall v | 0 <= v < |before| :: before[v] != 0 ==> after[v] == before[v]
  }

  /** No edge between two distinct coloured vertices joins equal colours */
  predicate Proper(s: Shape, colors: seq<nat>)
    requires Bounded(s, |colors|)
  {
    forall e | 0 <= e < |s.edges| ::
      s.edges[e].a != s.edges[e].b && colors[s.edges[e].a] != 0 && colors[s.edges[e].b] != 0
      ==> colors[s.edges[e].a] != colors[s.edges[e].b]
  }

  /** No vertex holds a colour above its number of edges plus one */
  predicate DegreeBounded(s: Shape, colors: seq<nat>)
    requires Bounded(s, |colors|)
  {
    forall v | 0 <= v < |colors| :: colors[v] <= |s.incident[v]| + 1
  }

  /** The assignment in which no vertex is coloured yet */
  function Uncolored(n: nat): (r: seq<nat>)
    ensures |r| == n && forall v | 0 <= v < n :: r[v] == 0
  {
    seq(n, _ => 0)
  }

  /** `colorVertex(v)` keeps a proper colouring proper, as the new colour
      clashes with no coloured neighbour whatever colours they hold, and
      keeps a degree-bounded one so, as it is at most `v`'s degree plus one */
  lemma VertexColoredSound(s: Shape, colors: seq<nat>, v: nat)
    requires Bounded(s, |colors|) && Registered(s) && v < |colors|
    ensures Proper(s, colors) ==> Proper(s, VertexColored(s, colors, v))
    ensures DegreeBounded(s, colors) ==> DegreeBounded(s, VertexColored(s, colors, v))
  {
    if colors[v] == 0 {
      var c := LeastFreeColor(s, colors, v);
      var r := VertexColored(s, colors, v);
      LeastFreeColorIsLeast(s, colors, v);
      if Proper(s, colors) {
        forall e | 0 <= e < |s.edges| && s.edges[e].a != s.edges[e].b && r[s.edges[e].a] != 0 && r[s.edges[e].b] != 0
          ensures r[s.edges[e].a] != r[s.edges[e].b]
        {
          var ed := s.edges[e];
          if ed.a == v || ed.b == v {
            assert Listed(s, e);
            var i :| 0 <= i < |s.incident[v]| && s.incident[v][i] == e;
            assert colors[Opposite(ed, v)] != c;
          }
        }
      }
    }
  }

  /** The neighbour pass keeps set colours and leaves every opposite endpoint
      of the scanned edges coloured */
  lemma {:induction false} OppositesColoredFrame(s: Shape, colors: seq<nat>, v: nat, inc: seq<nat>)
    requires Bounded(s, |colors|) && EdgeHandles(s, inc)
    ensures Extends(colors, OppositesColored(s, colors, v, inc))
    ensures forall i | 0 <= i < |inc| :: OppositesColored(s, colors, v, inc)[Opposite(s.edges[inc[i]], v)] != 0
    decreases inc
  {
    if inc != [] {
      var o := Opposite(s.edges[inc[0]], v);
      var next := if colors[o] != 0 then colors else VertexColored(s, colors, o);
      OppositesColoredFrame(s, next, v, inc[1..]);
      var r := OppositesColored(s, colors, v, inc);
      forall i | 0 <= i < |inc|
        ensures r[Opposite(s.edges[inc[i]], v)] != 0
      {
        if i > 0 {
          assert inc[1..][i - 1] == inc[i];
        }
      }
    }
  }

  /** The neighbour pass keeps properness and the degree bound, each on its own */
  lemma {:induction false} OppositesColoredSound(s: Shape, colors: seq<nat>, v: nat, inc: seq<nat>)
    requires Bounded(s, |colors|) && Registered(s) && EdgeHandles(s, inc)
    ensures Proper(s, colors) ==> Proper(s, OppositesColored(s, colors, v, inc))
    ensures DegreeBounded(s, colors) ==> DegreeBounded(s, OppositesColored(s, colors, v, inc))
    decreases inc
  {
    if inc != [] {
      var o := Opposite(s.edges[inc[0]], v);
      var next := if colors[o] != 0 then colors else VertexColored(s, colors, o);
      VertexColoredSound(s, colors, o);
      OppositesColoredSound(s, next, v, inc[1..]);
    }
  }

  /** An outer-loop step keeps set colours; a coloured vertex it reaches
      changes nothing, and an uncoloured one ends up coloured together with
      every opposite endpoint of its edges */
  lemma VisitFrame(s: Shape, colors: seq<nat>, v: nat)
    requires Bounded(s, |colors|) && v < |colors|
    ensures Extends(colors, Visit(s, colors, v))
    ensures Visit(s, colors, v)[v] != 0
    ensures colors[v] != 0 ==> Visit(s, colors, v) == colors
    ensures colors[v] == 0 ==> forall i | 0 <= i < |s.incident[v]| ::
      Visit(s, colors, v)[Opposite(s.edges[s.incident[v][i]], v)] != 0
  {
    if colors[v] == 0 {
      OppositesColoredFrame(s, VertexColored(s, colors, v), v, s.incident[v]);
    }
  }

  /** An outer-loop step keeps properness and the degree bound, each on its own */
  lemma VisitSound(s: Shape, colors: seq<nat>, v: nat)
    requires Bounded(s, |colors|) && Registered(s) && v < |colors|
    ensures Proper(s, colors) ==> Proper(s, Visit(s, colors, v))
    ensures DegreeBounded(s, colors) ==> DegreeBounded(s, Visit(s, colors, v))
  {
    if colors[v] == 0 {
      VertexColoredSound(s, colors, v);
      OppositesColoredSound(s, VertexColored(s, colors, v), v, s.incident[v]);
    }
  }

  /** `colorGraph` keeps every colour already set and colours every vertex it
      visits */
  lemma {:induction false} GraphColoredFrame(s: Shape, colors: seq<nat>, order: seq<nat>)
    requires Bounded(s, |colors|)
    requires forall i | 0 <= i < |order| :: order[i] < |colors|
    ensures Extends(colors, GraphColored(s, colors, order))
    ensures forall i | 0 <= i < |order| :: GraphColored(s, colors, order)[order[i]] != 0
    decreases order
  {
    if order != [] {
      var next := Visit(s, colors, order[0]);
      VisitFrame(s, colors, order[0]);
      GraphColoredFrame(s, next, order[1..]);
      var r := GraphColored(s, colors, order);
      forall i | 0 <= i < |order|
        ensures r[order[i]] != 0
      {
        if i > 0 {
          assert order[1..][i - 1] == order[i];
        }
      }
    }
  }

  /** `colorGraph` keeps a proper colouring proper, and a degree-bounded one
      degree-bounded, each on its own */
  lemma {:induction false} GraphColoredSound(s: Shape, colors: seq<nat>, order: seq<nat>)
    requires Bounded(s, |colors|) && Registered(s)
    requires forall i | 0 <= i < |order| :: order[i] < |colors|
    ensures Proper(s, colors) ==> Proper(s, GraphColored(s, colors, order))
    ensures DegreeBounded(s, colors) ==> DegreeBounded(s, GraphColored(s, colors, order))
    decreases order
  {
    if order != [] {
      VisitSound(s, colors, order[0]);
      GraphColoredSound(s, Visit(s, colors, order[0]), order[1..]);
    }
  }

  /** Colouring a fresh graph: every listed vertex gets a positive colour of
      at most its degree plus one, and no edge between two distinct listed
      vertices joins equal colours */
  lemma ColoringIsValid(s: Shape, order: seq<nat>)
    requires Bounded(s, |s.incident|) && Registered(s)
    requires forall i | 0 <= i < |order| :: order[i] < |s.incident|
    ensures var r := GraphColored(s, Uncolored(|s.incident|), order);
      && (forall i | 0 <= i < |order| :: 1 <= r[order[i]] <= |s.incident[order[i]]| + 1)
      && (forall e | 0 <= e < |s.edges| ::
            s.edges[e].a != s.edges[e].b && s.edges[e].a in order && s.edges[e].b in order
            ==> r[s.edges[e].a] != r[s.edges[e].b])
  {
    var n := |s.incident|;
    GraphColoredFrame(s, Uncolored(n), order);
    GraphColoredSound(s, Uncolored(n), order);
  }
}
