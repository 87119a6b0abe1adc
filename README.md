# Graph colouring and capped-line demo, modelled in Dafny

This project models two scripts of a small browser demo repository.

- **graph-coloring.js**: a greedy graph colouring. `Vertex` objects carry a name, a colour (`null` until coloured) and the list of their edges. Constructing an `Edge` pushes it onto the edge lists of both endpoints. `colorVertex` gives a vertex the smallest positive colour that no neighbour across its edges holds. `colorGraph` visits the listed vertices in order. It colours each uncoloured vertex, then every still uncoloured neighbour, in the order of that vertex's edges. The script at the end builds a five-vertex sample graph and colours it.
- **capped-line-demo.js**: the logic behind a demo page, apart from the DOM. It covers:
  - the positive-integer test `isPosInt`;
  - the hex colour manager's `cleanValue` and `testValue`;
  - the cap and middle widths computed by `CappedLine.render`, and the line's setters;
  - the accept/reject state machine of `ValidatedInput`, which keeps a stored value and the text shown in the field.

Files:

- `coloring_spec.dfy` (module `ColoringSpec`): the adjacency structure (`Shape`). It defines what registering an edge does and the colouring as pure functions: `LeastFreeColor`, `VertexColored`, `OppositesColored`, `Visit` and `GraphColored`. The lemmas prove that the colouring is proper and degree-bounded.
- `graph_coloring.dfy` (module `GraphColoring`): the objects as class `Arena`, which holds every vertex and edge.
  - A vertex or edge is a handle, that is, an index.
  - `colors[v]` is `v.color`, with 0 standing for `null`.
  - `incident[v]` is `v.edges`.
  - `NewVertex`, `NewEdge`, `ColorVertex`, `VisitVertex` and `ColorGraph` update these fields in place, with the source's loops. They are proved to compute the functions of `ColoringSpec`.
  - The sample script is modelled step by step, together with the colours it produces.
- `capped_line_demo.dfy` (module `CappedLineDemo`):
  - pure functions for `isPosInt`, `testValue`, `cleanValue` and the width arithmetic;
  - class `CappedLine`, whose `styles` field records what `render` last wrote;
  - class `ValidatedInput`, whose manager (`cleanValue`, `testValue`) and value-to-text conversion are constructor parameters. Its `handled` field records the values passed to `handleSet`, in order. `NewHexColorInput` builds the hex colour input as the instance `clean = CleanHexValue`, `test = TestHexValue`, `show` the identity.

Colouring the sample graph in the order v1 .. v5 gives v1 = 1, v2 = 2, v3 = 3, v4 = 2, v5 = 1. Both passes of v1's neighbour loop follow v1's edges in the order e1, e2, e3. So v4 is coloured while v1 is visited, and v4 takes 2 (v1 holds 1, v3 holds 3). That is the behaviour of the code.

## Model

| member | source | states |
|---|---|---|
| ColoringSpec.Opposite | graph-coloring.js:63 | the opposite endpoint (the same expression as line 49) is one of the edge's endpoints: `a` when the vertex is `b`, `b` when the vertex is `a` alone |
| ColoringSpec.Registering | graph-coloring.js:17-18 | constructing an edge leaves one list per vertex, with the edge's handle last on the lists of both endpoints |
| ColoringSpec.RegisteringAppends | graph-coloring.js:17-18 | constructing an edge appends its handle to the end of the lists of both endpoints (twice for a self-loop) and changes no other list |
| ColoringSpec.NewVertexShape | graph-coloring.js:2-6 | a new vertex with an empty edge list keeps every list consistent with the edges |
| ColoringSpec.NewEdgeShape | graph-coloring.js:13-19 | after an edge is constructed, every edge is on the lists of both its endpoints, and every list entry is an edge touching that vertex |
| ColoringSpec.NewEdgeBounded | graph-coloring.js:13-19 | after construction, every handle is in range and every list entry names an edge touching the list's vertex |
| ColoringSpec.NewEdgeRegistered | graph-coloring.js:13-19 | after construction, every edge (old and new) has endpoints in range and is on the lists of both endpoints |
| ColoringSpec.UsedColors | graph-coloring.js:62-68 | the colours the scan can find across a vertex's edges never include null |
| ColoringSpec.UsedColorsMembers | graph-coloring.js:62-68 | a colour is among those the scan finds exactly when it is non-null and held by the opposite endpoint of one of the vertex's edges |
| ColoringSpec.UsedColorsSize | graph-coloring.js:62-68 | the scan finds at most as many distinct colours as the vertex has edges |
| ColoringSpec.Mex | graph-coloring.js:58-73 | counting up from `c` stops at a colour that is at least `c` and not in use |
| ColoringSpec.MexIsLeast | graph-coloring.js:58-74 | counting up from `c`, the first colour not in use is at least `c` and exceeds it by at most the number of colours in use, is not in use, and every colour below it from `c` on is in use |
| ColoringSpec.MexUnique | graph-coloring.js:58-74 | that least free colour is the only one with this property |
| ColoringSpec.LeastFreeColor | graph-coloring.js:58-73 | the colour the `while` loop settles on is held by no opposite endpoint of the vertex's edges |
| ColoringSpec.LeastFreeColorIsLeast | graph-coloring.js:56-75 | the colour `colorVertex` picks is between 1 and the degree plus one, clashes with no opposite endpoint, and every smaller positive colour is held by one |
| ColoringSpec.VertexColored | graph-coloring.js:56-75 | after `colorVertex(v)`, `v` is coloured, every colour already set is kept, and no other vertex changes |
| ColoringSpec.VertexColoredSound | graph-coloring.js:56-75 | `colorVertex` keeps any proper colouring proper, whatever colours the neighbours hold, and any degree-bounded colouring degree-bounded, each on its own |
| ColoringSpec.OppositesColored | graph-coloring.js:48-52 | the neighbour pass keeps one colour per vertex and every colour already set |
| ColoringSpec.OppositesColoredFrame | graph-coloring.js:48-52 | the neighbour pass keeps every set colour and leaves every opposite endpoint of the scanned edges coloured |
| ColoringSpec.OppositesColoredSound | graph-coloring.js:48-52 | the neighbour pass keeps properness and the degree bound, each on its own |
| ColoringSpec.Visit | graph-coloring.js:45-53 | one iteration of the outer loop keeps one colour per vertex and every colour already set |
| ColoringSpec.VisitFrame | graph-coloring.js:45-53 | a visit skips a coloured vertex unchanged; otherwise it keeps set colours and colours the vertex and all its neighbours |
| ColoringSpec.VisitSound | graph-coloring.js:45-53 | a visit keeps properness and the degree bound, each on its own |
| ColoringSpec.GraphColored | graph-coloring.js:43-54 | `colorGraph` keeps one colour per vertex and every colour already set |
| ColoringSpec.GraphColoredFrame | graph-coloring.js:43-54 | `colorGraph` keeps every colour already set and colours every listed vertex |
| ColoringSpec.GraphColoredSkips | graph-coloring.js:45-46 | `colorGraph` passes over a run of already coloured vertices without changing anything |
| ColoringSpec.GraphColoredSound | graph-coloring.js:43-54 | `colorGraph` keeps properness and the degree bound, each on its own |
| ColoringSpec.ColoringIsValid | graph-coloring.js:36-54 | from an uncoloured graph, every listed vertex gets a colour in 1 .. degree + 1, and no edge joins two distinct listed vertices of the same colour |
| GraphColoring.Arena.constructor | graph-coloring.js:1-34 | an empty arena with no vertices and no edges satisfies the structure invariant |
| GraphColoring.Arena.NewVertex | graph-coloring.js:2-6 | `new Vertex(name)` adds an uncoloured vertex with no edges under the next handle, keeps the invariant and changes no edge |
| GraphColoring.Arena.NewEdge | graph-coloring.js:13-19 | `new Edge(name, a, b)` appends the edge, pushes its handle onto `a.edges` and then `b.edges`, keeps the invariant and changes no colour |
| GraphColoring.Arena.ColorVertex | graph-coloring.js:56-75 | the `while` loop with its `found` scan leaves exactly the assignment of `VertexColored`: the least free colour for an uncoloured vertex, nothing otherwise; the arena invariant is kept |
| GraphColoring.Arena.VisitVertex | graph-coloring.js:46-52 | the body of the outer loop leaves the assignment of `Visit`: a coloured vertex is skipped, otherwise it and then each still uncoloured opposite endpoint are coloured in edge order; the arena invariant is kept |
| GraphColoring.Arena.ColorGraph | graph-coloring.js:43-54 | the outer loop leaves the assignment of `GraphColored`; set colours are kept, every listed vertex ends coloured, a proper colouring stays proper and a degree-bounded one degree-bounded; the arena invariant is kept |
| GraphColoring.SampleIncidentLists | graph-coloring.js:83-88 | the six sample edges leave v1 .. v5 with the edge lists e1 e2 e3, e1 e4, e2 e4 e5, e3 e5 e6 and e6 |
| GraphColoring.SampleShape | graph-coloring.js:78-88 | the sample structure has those five edge lists |
| GraphColoring.SampleFirstColors | graph-coloring.js:47-51 | v1 takes colour 1, then v2 takes 2 |
| GraphColoring.SampleThirdColor | graph-coloring.js:48-51 | v3 takes 3, as v1 and v2 hold 1 and 2 |
| GraphColoring.SampleFourthColor | graph-coloring.js:48-51 | v4 takes 2, as v1 and v3 hold 1 and 3 |
| GraphColoring.SampleLastVisit | graph-coloring.js:45-53 | visiting v5 gives it colour 1, as its only neighbour v4 holds 2 |
| GraphColoring.SampleFirstVisit | graph-coloring.js:45-53 | visiting v1 colours v1, v2, v3, v4 as 1, 2, 3, 2 |
| GraphColoring.SampleColoring | graph-coloring.js:91 | colouring the sample graph in the order v1 .. v5 gives 1, 2, 3, 2, 1 |
| GraphColoring.SampleVertices | graph-coloring.js:78-82 | the five sample vertices are created uncoloured with empty edge lists |
| GraphColoring.SampleEdgesFromFirst | graph-coloring.js:83-85 | e1, e2, e3 are constructed and registered in source order |
| GraphColoring.SampleEdgesRest | graph-coloring.js:86-88 | e4, e5, e6 complete the sample structure |
| GraphColoring.SampleBuild | graph-coloring.js:78-88 | building the five vertices and six edges gives the sample structure, with nothing coloured |
| GraphColoring.SampleGraph | graph-coloring.js:78-91 | building and colouring the sample graph leaves the colours 1, 2, 3, 2, 1 |
| CappedLineDemo.ToInt32 | capped-line-demo.js:7 | the bitwise or with 0 lies in the signed 32-bit range, is congruent to `x` modulo 2^32, and is `x` itself when `x` is in range |
| CappedLineDemo.IsPosInt | capped-line-demo.js:5-8 | `isPosInt(x)` holds exactly when 1 <= x <= 2^31 - 1 |
| CappedLineDemo.HexDigitsMatch | capped-line-demo.js:215 | a string matched by the anchored `[0-9A-Fa-f]{k}` has exactly `k` characters |
| CappedLineDemo.HexDigitsMatchMeans | capped-line-demo.js:215 | the anchored `[0-9A-Fa-f]{k}` matches exactly the strings of `k` hex digits |
| CappedLineDemo.TestHexValue | capped-line-demo.js:214-216 | a colour `testValue` accepts has 3 or 6 characters |
| CappedLineDemo.TestHexValueMeans | capped-line-demo.js:214-216 | `testValue` accepts exactly strings of 3 or 6 characters that are all hex digits |
| CappedLineDemo.JunkIsNotHex | capped-line-demo.js:209 | no character of the class `[\#\s]` is a hex digit |
| CappedLineDemo.DropJunk | capped-line-demo.js:209 | the greedy `[\#\s]+` consumes a prefix made of junk only and stops at a non-junk character or the end |
| CappedLineDemo.DropJunkStops | capped-line-demo.js:209 | the greedy run ends exactly at the first non-junk character |
| CappedLineDemo.CleanHexValue | capped-line-demo.js:208-210 | `cleanValue` never lengthens its input and returns a string with no `#` or white space unchanged |
| CappedLineDemo.CleanHexValueSplices | capped-line-demo.js:208-210 | `cleanValue` removes exactly the leftmost maximal run of `#`/white space, keeping everything before and after it |
| CappedLineDemo.FirstRunExists | capped-line-demo.js:208-210 | every string has such a leftmost maximal run (empty at the end when there is none) |
| CappedLineDemo.AcceptedHexIsClean | capped-line-demo.js:208-216 | a value `testValue` accepts is left unchanged by `cleanValue` |
| CappedLineDemo.CapWidths | capped-line-demo.js:61-66 | the middle width is never negative; a line at least two caps wide has caps of its height, with caps plus middle filling the width; a narrower one has no middle and caps of half the width, rounded up |
| CappedLineDemo.LayoutOf | capped-line-demo.js:61-74 | the styles written carry the line's height and colour, a non-negative middle width, and fill the width when it allows two full caps; its cap and middle widths are those of `CapWidths` |
| CappedLineDemo.CappedLine.constructor | capped-line-demo.js:18-37 | a new line stores its width, height and colour, and has been rendered exactly when it is attached |
| CappedLineDemo.CappedLine.Render | capped-line-demo.js:58-75 | a detached line writes nothing; an attached one writes the layout of its current width, height and colour |
| CappedLineDemo.CappedLine.SetColor | capped-line-demo.js:77-80 | stores the colour, leaves width and height unchanged, and re-renders |
| CappedLineDemo.CappedLine.SetHeight | capped-line-demo.js:82-85 | stores the height, leaves width and colour unchanged, and re-renders |
| CappedLineDemo.CappedLine.SetWidth | capped-line-demo.js:87-90 | stores the width, leaves height and colour unchanged, and re-renders |
| CappedLineDemo.ValidatedInput.constructor | capped-line-demo.js:102-112 | the field shows the initial value, which is also the stored value, and nothing has been handed to `handleSet` |
| CappedLineDemo.ValidatedInput.HandleInputChange | capped-line-demo.js:121-134 | a cleaned text equal to the stored value is accepted and shown, with no `handleSet`; a new text that fails the test is refused and nothing changes; a new text that passes is stored, shown and handed to `handleSet` once; every handled value passed the test, and the stored value is the last handled one |
| CappedLineDemo.ValidatedInput.HandleInputBlur | capped-line-demo.js:136-144 | after leaving the field it shows the stored value; a refused text leaves the stored value and `handleSet` log unchanged |
| CappedLineDemo.NewHexColorInput | capped-line-demo.js:232-237 | a hex colour input is a fresh validated input whose manager is `cleanValue` and `testValue` of the hex colour manager and whose field shows values as they are; it stores and shows the given colour and has handed nothing on |

## Left out

- The DOM: element creation, styles as `px` strings, `makeCap`, `labelElement`, `makeSpacedRow`, the `CappedLineDemo` wiring and the `load` listener. These are browser side effects. A line's parent node is modelled as the constant `attached`, fixed at construction.
- `alert`, `window.setTimeout` and `input.select()` in `_handleInputBlur`, and event-handler binding: UI and asynchronous plumbing; only the field updates are modelled.
- `PosIntInputManager.cleanValue` (`parseInt`) and JS `Number` semantics: NaN, fractional numbers, infinities. Integers stand in for numbers, so `IsPosInt` and the widths are over `int`, with the 32-bit wrap-around of the bitwise or written out.
- `ValidatedInput` compares values with `==`. `NaN !== NaN` is not modelled.
- `toString`, `Graph.toString`, `getInvalidMessage`, `console.log` and the optional `CappedLine.log` hook (capped-line-demo.js:67-68, 94): display-only strings and logging.
- The complexity remark in the comment above `colorGraph`: not a behavioural property.
- `Graph.edges` is kept but unused by `colorGraph`; only the left-out `Graph.toString` reads it.
- color-wheel.js: canvas drawing and click handling on floating-point trigonometry.
- ColoringSpec.ColoringIsValid: properness is stated for edges between distinct vertices. A self-loop makes a vertex its own neighbour: `colorVertex` never sees it coloured while scanning, so it cannot be proper.
- GraphColoring.Arena.NewEdge: an edge added after colouring may join two equal colours. So properness is not part of the arena invariant; `ColorGraph` keeps it whenever it held before, whatever colours were set.
