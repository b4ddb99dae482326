/**
 * Edges and vertices of the graph library (Lib/Graphing/Edge.js and
 * Lib/Graphing/Vertex.js). An edge is a value holding references to its two
 * endpoint vertices; a vertex is an object whose edge list is updated in
 * place. Every edge is meant to be stored in the lists of both endpoints.
 */
module Graphing {
  import opened Wrappers
  import Text
  import Sorting

  /** The plain record an edge serialises to: endpoint IDs instead of vertices. */
  datatype EdgeRecord = EdgeRecord(From: string, To: string, Directed: bool, Weight: int)

  /** An edge between two vertices. Structural equality of edges is datatype equality. */
  datatype Edge = Edge(From: Vertex, To: Vertex, Directed: bool, Weight: int)
  {
    /** Weight, From ID, To ID and the direction flag, concatenated; the key `Vertex.Sort` orders by. */
    function SortIdentifier(): string {
      Text.IntToString(Weight) + From.ID + To.ID + (if Directed then "true" else "false")
    }

    /** Whether one of the endpoints has the ID of `v`. */
    predicate HasVertex(v: Vertex) {
      From.ID == v.ID || To.ID == v.ID
    }

    /**
     * `From` unless `From` has the ID of `v`, otherwise `To`: for an edge that
     * touches `v` this is the other endpoint (for a self-loop, `v`'s twin).
     */
    function GetOppositeVertexFrom(v: Vertex): (w: Vertex)
      ensures HasVertex(v) ==> multiset{From.ID, To.ID} == multiset{v.ID, w.ID}
      ensures !HasVertex(v) ==> w == From
      ensures w == From || w == To
    {
      if From.ID != v.ID then From else To
    }

    /** The edge with its endpoints replaced by their IDs. */
    function Serialize(): EdgeRecord {
      EdgeRecord(From.ID, To.ID, Directed, Weight)
    }
  }

  /**
   * `new Edge(opt)`: `Directed` defaults to false and `Weight` to 1; an edge
   * cannot be built without both endpoints.
   */
  function NewEdge(from: Option<Vertex>, to: Option<Vertex>, directed: Option<bool>, weight: Option<int>): (r: Result<Edge, string>)
    ensures r.Ok? <==> from.Some? && to.Some?
    ensures r.Ok? ==> r.value.From == from.value && r.value.To == to.value
    ensures r.Ok? ==> r.value.Directed == (directed.Some? && directed.value)
    ensures r.Ok? ==> r.value.Weight == (if weight.Some? then weight.value else 1)
  {
    if from.None? || to.None? then Err("Cannot construct an edge without two vertices")
    else Ok(Edge(from.value, to.value, directed.GetOr(false), weight.GetOr(1)))
  }

  /**
   * A record read back into an edge between vertices carrying its endpoint
   * IDs serialises to the same record; `Graph.Deserialize` builds its edges
   * this way.
   */
  lemma SerializeNewEdge(r: EdgeRecord, from: Vertex, to: Vertex)
    requires from.ID == r.From && to.ID == r.To
    ensures NewEdge(Some(from), Some(to), Some(r.Directed), Some(r.Weight)).Ok?
    ensures NewEdge(Some(from), Some(to), Some(r.Directed), Some(r.Weight)).value.Serialize() == r
  {
  }

  /** The first edge of `edges` touching `w`, if there is one. */
  function FirstTouching(edges: seq<Edge>, w: Vertex): (r: Option<Edge>)
    ensures r.None? <==> forall e :: e in edges ==> !e.HasVertex(w)
    ensures r.Some? ==> r.value in edges && r.value.HasVertex(w)
  {
    if edges == [] then None
    else if edges[0].HasVertex(w) then Some(edges[0])
    else FirstTouching(edges[1..], w)
  }

  /** An edge contributes to the out-degree of `v` when it is undirected or leaves `v`. */
  predicate Leaves(e: Edge, v: Vertex) {
    !e.Directed || e.From.ID == v.ID
  }

  /** An edge contributes to the in-degree of `v` when it is undirected or enters `v`. */
  predicate Enters(e: Edge, v: Vertex) {
    !e.Directed || e.To.ID == v.ID
  }

  /** The vertex an edge leads to from `v` (only meaningful when `Leaves(e, v)`). */
  function Successor(e: Edge, v: Vertex): Vertex {
    if e.Directed then e.To else e.GetOppositeVertexFrom(v)
  }

  /** The vertex an edge comes from, seen from `v` (only meaningful when `Enters(e, v)`). */
  function Predecessor(e: Edge, v: Vertex): Vertex {
    if e.Directed then e.From else e.GetOppositeVertexFrom(v)
  }

  /** The vertices `GetAdjacent` reports for a vertex with ID `v.ID` and edge list `edges`, in list order. */
  function AdjacentOf(v: Vertex, edges: seq<Edge>): seq<Vertex> {
    if edges == [] then []
    else
      var e := edges[|edges| - 1];
      AdjacentOf(v, edges[..|edges| - 1]) + (if Leaves(e, v) then [Successor(e, v)] else [])
  }

  /** The vertices `GetPrecedent` reports, in list order. */
  function PrecedentOf(v: Vertex, edges: seq<Edge>): seq<Vertex> {
    if edges == [] then []
    else
      var e := edges[|edges| - 1];
      PrecedentOf(v, edges[..|edges| - 1]) + (if Enters(e, v) then [Predecessor(e, v)] else [])
  }

  /** The number of edges counted by `Outdegree`. */
  function OutdegreeOf(v: Vertex, edges: seq<Edge>): (d: nat)
    ensures d <= |edges|
  {
    if edges == [] then 0
    else OutdegreeOf(v, edges[..|edges| - 1]) + (if Leaves(edges[|edges| - 1], v) then 1 else 0)
  }

  /** The number of edges counted by `Indegree`. */
  function IndegreeOf(v: Vertex, edges: seq<Edge>): (d: nat)
    ensures d <= |edges|
  {
    if edges == [] then 0
    else IndegreeOf(v, edges[..|edges| - 1]) + (if Enters(edges[|edges| - 1], v) then 1 else 0)
  }

  /** A vertex is adjacent exactly when some edge leads to it, and there are as many adjacents as the out-degree. */
  lemma {:induction false} AdjacentOfMembers(v: Vertex, edges: seq<Edge>)
    ensures |AdjacentOf(v, edges)| == OutdegreeOf(v, edges)
    ensures forall w :: w in AdjacentOf(v, edges) <==> exists e :: e in edges && Leaves(e, v) && Successor(e, v) == w
  {
    if edges != [] {
      var init := edges[..|edges| - 1];
      AdjacentOfMembers(v, init);
      assert edges == init + [edges[|edges| - 1]];
    }
  }

  /** A vertex is a precedent exactly when some edge comes from it, and there are as many precedents as the in-degree. */
  lemma {:induction false} PrecedentOfMembers(v: Vertex, edges: seq<Edge>)
    ensures |PrecedentOf(v, edges)| == IndegreeOf(v, edges)
    ensures forall w :: w in PrecedentOf(v, edges) <==> exists e :: e in edges && Enters(e, v) && Predecessor(e, v) == w
  {
    if edges != [] {
      var init := edges[..|edges| - 1];
      PrecedentOfMembers(v, init);
      assert edges == init + [edges[|edges| - 1]];
    }
  }

  /**
   * A directed edge stored in both endpoint lists makes its head adjacent to
   * its tail and its tail a precedent of its head.
   */
  lemma DirectedEdgeSeenFromBothEnds(e: Edge)
    requires e.Directed && e in e.From.Edges && e in e.To.Edges
    ensures e.To in AdjacentOf(e.From, e.From.Edges)
    ensures e.From in PrecedentOf(e.To, e.To.Edges)
  {
    AdjacentOfMembers(e.From, e.From.Edges);
    PrecedentOfMembers(e.To, e.To.Edges);
  }

  /** `edges` without the edges equal to `target`, in order (lodash `_.remove` with `_.isEqual`). */
  function Without(edges: seq<Edge>, target: Edge): seq<Edge> {
    if edges == [] then []
    else (if edges[0] == target then [] else [edges[0]]) + Without(edges[1..], target)
  }

  /** `Without` removes every copy of the target and nothing else, keeping the order. */
  lemma {:induction false} WithoutRemovesExactly(edges: seq<Edge>, target: Edge)
    ensures multiset(Without(edges, target)) == multiset(edges)[target := 0]
  {
    if edges != [] {
      WithoutRemovesExactly(edges[1..], target);
      assert edges == [edges[0]] + edges[1..];
    }
  }

  lemma {:induction false} WithoutMembers(edges: seq<Edge>, target: Edge)
    ensures forall e :: e in Without(edges, target) <==> e in edges && e != target
  {
    if edges != [] {
      WithoutMembers(edges[1..], target);
      assert edges == [edges[0]] + edges[1..];
    }
  }

  lemma {:induction false} WithoutIdempotent(edges: seq<Edge>, target: Edge)
    ensures Without(Without(edges, target), target) == Without(edges, target)
  {
    if edges != [] {
      WithoutIdempotent(edges[1..], target);
      var rest := Without(edges[1..], target);
      var once := Without(edges, target);
      if edges[0] != target {
        assert once == [edges[0]] + rest;
        assert once[0] == edges[0] && once[1..] == rest;
        assert Without(once, target) == [edges[0]] + Without(rest, target);
      } else {
        assert once == rest;
      }
    }
  }

  /** `edges` without the edges touching a vertex with the ID of `w`, in order. */
  function NotTouching(edges: seq<Edge>, w: Vertex): (r: seq<Edge>)
    ensures forall i :: 0 <= i < |r| ==> r[i] in edges && !r[i].HasVertex(w)
    ensures forall i :: 0 <= i < |edges| && !edges[i].HasVertex(w) ==> edges[i] in r
    ensures |r| <= |edges|
  {
    if edges == [] then []
    else (if edges[0].HasVertex(w) then [] else [edges[0]]) + NotTouching(edges[1..], w)
  }

  /** What the `_.remove` predicates of `RemoveEdge` and `RemoveEdgesBetween` test: equality with a target edge, or touching a vertex. */
  datatype Criterion = EqualTo(target: Edge) | Incident(w: Vertex)

  predicate Matches(c: Criterion, e: Edge) {
    match c
    case EqualTo(t) => e == t
    case Incident(w) => e.HasVertex(w)
  }

  /** Some edge of the list meets the criterion. */
  predicate Shrinks(edges: seq<Edge>, c: Criterion) {
    edges != [] && (Shrinks(edges[..|edges| - 1], c) || Matches(c, edges[|edges| - 1]))
  }

  /** Removing by equality shrinks a list exactly when the edge is in it. */
  lemma ShrinksEqualTo(edges: seq<Edge>, target: Edge)
    ensures Shrinks(edges, EqualTo(target)) <==> target in edges
  {
    ShrinksMember(edges, EqualTo(target));
    if target in edges {
      assert Matches(EqualTo(target), target);
    }
  }

  lemma {:induction false} ShrinksMember(edges: seq<Edge>, c: Criterion)
    ensures Shrinks(edges, c) <==> exists e :: e in edges && Matches(c, e)
  {
    if edges != [] {
      var init, last := edges[..|edges| - 1], edges[|edges| - 1];
      assert edges == init + [last];
      ShrinksMember(init, c);
      if exists e :: e in edges && Matches(c, e) {
        var e :| e in edges && Matches(c, e);
        assert e in init || e == last;
      }
    }
  }

  /** The edges that do not meet the criterion, in order. */
  function Rest(edges: seq<Edge>, c: Criterion): seq<Edge> {
    if edges == [] then []
    else
      var last := edges[|edges| - 1];
      Rest(edges[..|edges| - 1], c) + (if Matches(c, last) then [] else [last])
  }

  /**
   * `Rest` keeps only edges of the list that miss the criterion, keeps the
   * list as it is when every edge misses it, and is shorter otherwise.
   */
  lemma {:induction false} RestFacts(edges: seq<Edge>, c: Criterion)
    ensures forall e :: e in Rest(edges, c) ==> e in edges && !Matches(c, e)
    ensures !Shrinks(edges, c) ==> Rest(edges, c) == edges
    ensures Shrinks(edges, c) ==> |Rest(edges, c)| < |edges|
  {
    if edges != [] {
      var init, last := edges[..|edges| - 1], edges[|edges| - 1];
      assert edges == init + [last];
      RestFacts(init, c);
      RestSnoc(init, last, c);
    }
  }

  /** Removing by the same criterion twice removes nothing more. */
  lemma {:induction false} RestIdempotent(edges: seq<Edge>, c: Criterion)
    ensures Rest(Rest(edges, c), c) == Rest(edges, c)
  {
    if edges != [] {
      var init, last := edges[..|edges| - 1], edges[|edges| - 1];
      assert edges == init + [last];
      RestIdempotent(init, c);
      RestSnoc(init, last, c);
      if Matches(c, last) {
        assert Rest(edges, c) == Rest(init, c) + [] == Rest(init, c);
      } else {
        RestSnoc(Rest(init, c), last, c);
      }
    }
  }

  /** A self-loop of `v` touches `v`. */
  lemma SelfLoopTouches(v: Vertex, edges: seq<Edge>, n: int)
    requires SelfLoopBefore(v, edges, n)
    ensures Shrinks(edges, Incident(v))
  {
    var k := SelfLoopWitness(v, edges, n);
    assert Matches(Incident(v), edges[k]);
    ShrinksMember(edges, Incident(v));
  }

  /** The indexes of the edges that meet the criterion, ascending: what `_.remove` collects before pulling. */
  function Positions(edges: seq<Edge>, c: Criterion): seq<nat> {
    if edges == [] then []
    else Positions(edges[..|edges| - 1], c) + (if Matches(c, edges[|edges| - 1]) then [|edges| - 1] else [])
  }

  /** The positions among the first `n` edges, as `_.remove` has collected them after `n` steps. */
  function PositionsUpTo(edges: seq<Edge>, n: nat, c: Criterion): seq<nat>
    requires n <= |edges|
  {
    if n == 0 then []
    else PositionsUpTo(edges, n - 1, c) + (if Matches(c, edges[n - 1]) then [n - 1] else [])
  }

  /** Collected over the whole list, they are the positions. */
  lemma {:induction false} PositionsUpToWhole(edges: seq<Edge>, n: nat, c: Criterion)
    requires n <= |edges|
    ensures PositionsUpTo(edges, n, c) == Positions(edges[..n], c)
  {
    if n > 0 {
      PositionsUpToWhole(edges, n - 1, c);
      PositionsStep(edges, n - 1, c);
    }
  }

  /** The positions are ascending indexes of matching edges. */
  lemma {:induction false} PositionsFacts(edges: seq<Edge>, c: Criterion)
    ensures forall k :: 0 <= k < |Positions(edges, c)| ==> Positions(edges, c)[k] < |edges| && Matches(c, edges[Positions(edges, c)[k]])
    ensures forall i, j :: 0 <= i < j < |Positions(edges, c)| ==> Positions(edges, c)[i] < Positions(edges, c)[j]
  {
    if edges != [] {
      var init := edges[..|edges| - 1];
      PositionsFacts(init, c);
      assert forall k :: 0 <= k < |init| ==> init[k] == edges[k];
    }
  }

  /**
   * Lodash `basePullAt`: splices out the given indexes, the last first; an
   * index at or past the end of the list removes nothing.
   */
  function PullAt(arr: seq<Edge>, indexes: seq<nat>): seq<Edge>
    decreases |indexes|
  {
    if indexes == [] then arr
    else
      var k := indexes[|indexes| - 1];
      PullAt(if k < |arr| then arr[..k] + arr[k + 1..] else arr, indexes[..|indexes| - 1])
  }

  /** Pulling ascending indexes that all fall inside `arr` leaves an appended edge in place. */
  lemma {:induction false} PullAtAppend(arr: seq<Edge>, x: Edge, indexes: seq<nat>)
    requires forall k :: 0 <= k < |indexes| ==> indexes[k] < |arr|
    requires forall i, j :: 0 <= i < j < |indexes| ==> indexes[i] < indexes[j]
    ensures PullAt(arr + [x], indexes) == PullAt(arr, indexes) + [x]
    decreases |indexes|
  {
    if indexes != [] {
      var k, pre := indexes[|indexes| - 1], indexes[..|indexes| - 1];
      var spliced := arr[..k] + arr[k + 1..];
      assert (arr + [x])[..k] + (arr + [x])[k + 1..] == spliced + [x];
      assert forall m :: 0 <= m < |pre| ==> pre[m] < k;
      PullAtAppend(spliced, x, pre);
    }
  }

  /** Pulling the positions of the matching edges, as collected on the unchanged list, leaves exactly the others. */
  lemma {:induction false} PullPositions(edges: seq<Edge>, c: Criterion)
    ensures PullAt(edges, Positions(edges, c)) == Rest(edges, c)
  {
    if edges != [] {
      var init, last := edges[..|edges| - 1], edges[|edges| - 1];
      assert edges == init + [last];
      PullPositions(init, c);
      RestSnoc(init, last, c);
      var p := Positions(init, c);
      PositionsSnoc(init, last, c);
      PositionsFacts(init, c);
      if Matches(c, last) {
        PullLast(init, last, p);
      } else {
        assert Positions(edges, c) == p + [] == p;
        PullAtAppend(init, last, p);
      }
    }
  }

  lemma RestSnoc(init: seq<Edge>, last: Edge, c: Criterion)
    ensures Rest(init + [last], c) == Rest(init, c) + (if Matches(c, last) then [] else [last])
  {
    assert (init + [last])[..|init|] == init;
  }

  lemma PositionsSnoc(init: seq<Edge>, last: Edge, c: Criterion)
    ensures Positions(init + [last], c) == Positions(init, c) + (if Matches(c, last) then [|init|] else [])
  {
    assert (init + [last])[..|init|] == init;
  }

  lemma PositionsStep(edges: seq<Edge>, i: int, c: Criterion)
    requires 0 <= i < |edges|
    ensures Positions(edges[..i + 1], c) == Positions(edges[..i], c) + (if Matches(c, edges[i]) then [i] else [])
  {
    assert edges[..i + 1] == edges[..i] + [edges[i]];
    PositionsSnoc(edges[..i], edges[i], c);
  }

  /** Pulling the index of an appended edge, last of all, removes just that edge. */
  lemma PullLast(init: seq<Edge>, last: Edge, p: seq<nat>)
    ensures PullAt(init + [last], p + [|init|]) == PullAt(init, p)
  {
    var arr := init + [last];
    assert arr[..|init|] + arr[|init| + 1..] == init;
    assert (p + [|init|])[..|p|] == p;
  }

  /** `Rest` distributes over concatenation. */
  lemma {:induction false} RestAppend(a: seq<Edge>, b: seq<Edge>, c: Criterion)
    ensures Rest(a + b, c) == Rest(a, c) + Rest(b, c)
    decreases |b|
  {
    if b == [] {
      assert a + b == a;
    } else {
      var init, last := b[..|b| - 1], b[|b| - 1];
      assert b == init + [last] && a + b == (a + init) + [last];
      var m := if Matches(c, last) then [] else [last];
      calc {
        Rest(a + b, c);
        { RestSnoc(a + init, last, c); }
        Rest(a + init, c) + m;
        { RestAppend(a, init, c); }
        (Rest(a, c) + Rest(init, c)) + m;
        Rest(a, c) + (Rest(init, c) + m);
        { RestSnoc(init, last, c); }
        Rest(a, c) + Rest(b, c);
      }
    }
  }

  /** `Rest` read from the front. */
  lemma RestCons(x: Edge, t: seq<Edge>, c: Criterion)
    ensures Rest([x] + t, c) == (if Matches(c, x) then [] else [x]) + Rest(t, c)
  {
    RestAppend([x], t, c);
    RestSnoc([], x, c);
    assert [] + [x] == [x];
  }

  /** `Without` is `Rest` for equality with the target. */
  lemma {:induction false} WithoutIsRest(edges: seq<Edge>, target: Edge)
    ensures Without(edges, target) == Rest(edges, EqualTo(target))
  {
    if edges != [] {
      WithoutIsRest(edges[1..], target);
      RestCons(edges[0], edges[1..], EqualTo(target));
      assert edges == [edges[0]] + edges[1..];
    }
  }

  /** `NotTouching` is `Rest` for touching the vertex. */
  lemma {:induction false} NotTouchingIsRest(edges: seq<Edge>, w: Vertex)
    ensures NotTouching(edges, w) == Rest(edges, Incident(w))
  {
    if edges != [] {
      NotTouchingIsRest(edges[1..], w);
      RestCons(edges[0], edges[1..], Incident(w));
      assert edges == [edges[0]] + edges[1..];
    }
  }

  /** Among the first `n` edges is a self-loop of `v`: an edge whose opposite end from `v` is `v` itself. */
  predicate SelfLoopBefore(v: Vertex, edges: seq<Edge>, n: int)
    decreases n
  {
    0 < n && (SelfLoopBefore(v, edges, n - 1) || (n - 1 < |edges| && edges[n - 1].GetOppositeVertexFrom(v) == v))
  }

  /** One more edge adds a self-loop exactly when that edge is one. */
  lemma SelfLoopStep(v: Vertex, edges: seq<Edge>, i: int)
    requires 0 <= i < |edges|
    ensures SelfLoopBefore(v, edges, i + 1) <==> SelfLoopBefore(v, edges, i) || edges[i].GetOppositeVertexFrom(v) == v
  {
  }

  /** A self-loop among the first `m` edges is among the first `n` for any `n` at least `m`. */
  lemma {:induction false} SelfLoopMono(v: Vertex, edges: seq<Edge>, m: int, n: int)
    requires m <= n && SelfLoopBefore(v, edges, m)
    ensures SelfLoopBefore(v, edges, n)
    decreases n - m
  {
    if m < n {
      SelfLoopMono(v, edges, m, n - 1);
    }
  }

  /** A self-loop among the first `n` edges is one of the edges. */
  lemma {:induction false} SelfLoopWitness(v: Vertex, edges: seq<Edge>, n: int) returns (k: int)
    requires SelfLoopBefore(v, edges, n)
    ensures 0 <= k < n && k < |edges| && edges[k].GetOppositeVertexFrom(v) == v
    decreases n
  {
    if SelfLoopBefore(v, edges, n - 1) {
      k := SelfLoopWitness(v, edges, n - 1);
    } else {
      k := n - 1;
    }
  }

  /** The vertices `RemoveEdge` and `RemoveEdgesBetween` recurse into: the opposite end of every edge. */
  function Opposites(v: Vertex, edges: seq<Edge>): set<Vertex> {
    set k | 0 <= k < |edges| :: edges[k].GetOppositeVertexFrom(v)
  }

  /** Meeting the far end of edge `i` extends the far ends met over the first `i` edges to the first `i + 1`. */
  lemma SeenStep(v: Vertex, edges: seq<Edge>, seen: set<Vertex>, i: int)
    requires 0 <= i < |edges|
    requires forall k :: 0 <= k < i ==> edges[k].GetOppositeVertexFrom(v) in seen
    ensures forall k :: 0 <= k < i + 1 ==> edges[k].GetOppositeVertexFrom(v) in seen + {edges[i].GetOppositeVertexFrom(v)}
  {
    forall k | 0 <= k < i + 1
      ensures edges[k].GetOppositeVertexFrom(v) in seen + {edges[i].GetOppositeVertexFrom(v)}
    {
      if k < i {
        assert edges[k].GetOppositeVertexFrom(v) in seen;
      }
    }
  }

  /** The sort key of an edge. */
  function SortKey(e: Edge): string {
    e.SortIdentifier()
  }

  /** A vertex of the graph: an ID fixed at construction and a list of incident edges. */
  class Vertex {
    const ID: string
    var Edges: seq<Edge>

    /** `new Vertex({ID, Edges})`: a missing ID is the weak UUID `generated`, missing edges a fresh empty list. */
    constructor (id: Option<string>, edges: Option<seq<Edge>>, generated: string)
      ensures ID == (if id.Some? then id.value else generated)
      ensures Edges == (if edges.Some? then edges.value else [])
    {
      ID := id.GetOr(generated);
      Edges := edges.GetOr([]);
    }

    /** The vertices this one leads to: each edge in list order contributes at most one. */
    method GetAdjacent() returns (adjacent: seq<Vertex>)
      ensures adjacent == AdjacentOf(this, Edges)
    {
      adjacent := [];
      for i := 0 to |Edges|
        invariant adjacent == AdjacentOf(this, Edges[..i])
      {
        var edge := Edges[i];
        if !edge.Directed {
          adjacent := adjacent + [edge.GetOppositeVertexFrom(this)];
        } else if edge.Directed && edge.From.ID == ID {
          adjacent := adjacent + [edge.To];
        }
        assert Edges[..i + 1][..i] == Edges[..i];
      }
      assert Edges[..|Edges|] == Edges;
    }

    /** The vertices leading to this one: each edge in list order contributes at most one. */
    method GetPrecedent() returns (precedent: seq<Vertex>)
      ensures precedent == PrecedentOf(this, Edges)
    {
      precedent := [];
      for i := 0 to |Edges|
        invariant precedent == PrecedentOf(this, Edges[..i])
      {
        var edge := Edges[i];
        if !edge.Directed {
          precedent := precedent + [edge.GetOppositeVertexFrom(this)];
        } else if edge.Directed && edge.To.ID == ID {
          precedent := precedent + [edge.From];
        }
        assert Edges[..i + 1][..i] == Edges[..i];
      }
      assert Edges[..|Edges|] == Edges;
    }

    /**
     * Builds an edge from this vertex to `w` (endpoints, direction and weight
     * can be overridden) and appends that one edge to the lists of both
     * endpoints. For `w == this` the list receives it twice.
     */
    method AddEdgeTo(w: Vertex, from: Option<Vertex>, to: Option<Vertex>, directed: Option<bool>, weight: Option<int>)
      returns (edge: Edge)
      modifies this, w
      ensures Ok(edge) == NewEdge(Some(from.GetOr(this)), Some(to.GetOr(w)), directed, weight)
      ensures w != this ==> Edges == old(Edges) + [edge] && w.Edges == old(w.Edges) + [edge]
      ensures w == this ==> Edges == old(Edges) + [edge, edge]
    {
      edge := Edge(from.GetOr(this), to.GetOr(w), directed.GetOr(false), weight.GetOr(1));
      Edges := Edges + [edge];
      w.Edges := w.Edges + [edge];
    }

    /** The first edge in list order that touches `w`, if any. */
    method GetEdgeBetween(w: Vertex) returns (r: Option<Edge>)
      ensures r.None? <==> forall e :: e in Edges ==> !e.HasVertex(w)
      ensures r.Some? ==> exists i :: 0 <= i < |Edges| && Edges[i] == r.value && r.value.HasVertex(w)
                                        && forall j :: 0 <= j < i ==> !Edges[j].HasVertex(w)
      ensures r == FirstTouching(Edges, w)
    {
      r := None;
      var i := 0;
      while i < |Edges|
        invariant 0 <= i <= |Edges|
        invariant forall j :: 0 <= j < i ==> !Edges[j].HasVertex(w)
        invariant FirstTouching(Edges, w) == FirstTouching(Edges[i..], w)
      {
        assert Edges[i..][1..] == Edges[i + 1..];
        if Edges[i].HasVertex(w) {
          return Some(Edges[i]);
        }
        i := i + 1;
      }
    }

    /** Whether some edge touches `w`. */
    method HasEdgeBetween(w: Vertex) returns (b: bool)
      ensures b <==> exists e :: e in Edges && e.HasVertex(w)
    {
      var r := GetEdgeBetween(w);
      b := r.Some?;
    }

    /** Whether an edge structurally equal to `target` is stored here. */
    method HasEdge(target: Edge) returns (found: bool)
      ensures found <==> target in Edges
    {
      found := false;
      var i := 0;
      while i < |Edges|
        invariant 0 <= i <= |Edges|
        invariant target !in Edges[..i]
      {
        if Edges[i] == target {
          return true;
        }
        i := i + 1;
      }
      assert Edges[..i] == Edges;
    }

    /** `RemoveEdge(target, true)`: drops every edge equal to `target` from this list only. */
    method RemoveEdgeHere(target: Edge)
      modifies this
      ensures Edges == Without(old(Edges), target)
    {
      Edges := Without(Edges, target);
    }

    /** The criterion an opposite end removes by when this vertex recurses into it. */
    function Recursed(c: Criterion): Criterion {
      match c
      case EqualTo(t) => EqualTo(t)
      case Incident(_) => Incident(this)
    }

    /** The call `RemoveEdge(t, true)` or `RemoveEdgesBetween(w, true)` on `n`, by the criterion it applies. */
    static method RemoveHere(n: Vertex, r: Criterion)
      modifies n
      ensures n.Edges == Rest(old(n.Edges), r)
    {
      match r
      case EqualTo(t) =>
        WithoutIsRest(n.Edges, t);
        n.RemoveEdgeHere(t);
      case Incident(w) =>
        NotTouchingIsRest(n.Edges, w);
        n.RemoveEdgesBetweenHere(w);
    }

    /**
     * The far ends met so far (`seen`) hold their list `before` with the
     * recursion's removal applied; the others still hold it untouched.
     */
    ghost predicate Walked(c: Criterion, before: map<Vertex, seq<Edge>>, seen: set<Vertex>)
      reads before.Keys
    {
      forall n {:trigger n in before} :: n in before ==> n.Edges == if n in seen then Rest(before[n], Recursed(c)) else before[n]
    }

    /**
     * One pass of the `_.remove` predicate over the edge at index `i` while
     * the list is still whole: recurse into the opposite end, then collect
     * `i` when the edge matches. `shrunk` tells whether the recursion landed
     * on this very list and removed something from it.
     */
    method Sweep(c: Criterion, edges0: seq<Edge>, ghost before: map<Vertex, seq<Edge>>, ghost seen: set<Vertex>, i: nat, indexes: seq<nat>)
      returns (shrunk: bool, indexes': seq<nat>, ghost seen': set<Vertex>)
      requires i < |edges0| && Edges == edges0
      requires !(Shrinks(edges0, Recursed(c)) && SelfLoopBefore(this, edges0, i))
      requires indexes == PositionsUpTo(edges0, i, c)
      requires this !in before
      requires edges0[i].GetOppositeVertexFrom(this) != this ==> edges0[i].GetOppositeVertexFrom(this) in before
      requires forall k :: 0 <= k < i ==> edges0[k].GetOppositeVertexFrom(this) in seen
      requires Walked(c, before, seen)
      modifies edges0[i].GetOppositeVertexFrom(this)
      ensures shrunk <==> Shrinks(edges0, Recursed(c)) && SelfLoopBefore(this, edges0, i + 1)
      ensures Edges == if shrunk then Rest(edges0, Recursed(c)) else edges0
      ensures indexes' == PositionsUpTo(edges0, i + 1, c)
      ensures forall k :: 0 <= k < i + 1 ==> edges0[k].GetOppositeVertexFrom(this) in seen'
      ensures Walked(c, before, seen')
    {
      var r := Recursed(c);
      var edge := Edges[i];
      var opposite := edge.GetOppositeVertexFrom(this);
      SelfLoopStep(this, edges0, i);
      RestFacts(edges0, r);
      if opposite != this {
        RestIdempotent(before[opposite], r);
        RemoveHere(opposite, r);
        assert Edges == edges0;
      } else {
        RemoveHere(opposite, r);
        assert Edges == Rest(edges0, r);
      }
      shrunk := |Edges| != |edges0|;
      if Matches(c, edge) {
        indexes' := indexes + [i];
      } else {
        indexes' := indexes;
        assert indexes + [] == indexes;
      }
      SeenStep(this, edges0, seen, i);
      seen' := seen + {opposite};
      forall n | n in before
        ensures n.Edges == if n in seen' then Rest(before[n], r) else before[n]
      {
        if n != opposite {
          assert n.Edges == old(n.Edges);
        }
      }
    }

    /**
     * The rest of the `_.remove` walk once a self-loop has shortened the
     * list to `Rest(edges0, ...)`: the predicate goes on recursing over the
     * shorter list until index `i` falls past its end, where it throws.
     */
    method RunOff(c: Criterion, ghost edges0: seq<Edge>, i: nat, indexes: seq<nat>)
      requires Edges == Rest(edges0, Recursed(c)) && i < |edges0|
      modifies this, Opposites(this, edges0)
      ensures Edges == old(Edges)
    {
      var r := Recursed(c);
      var i, indexes := i, indexes;
      RestFacts(edges0, r);
      RestIdempotent(edges0, r);
      while i < |Edges|
        invariant Edges == Rest(edges0, r)
      {
        var edge := Edges[i];
        assert edge in edges0;
        var opposite := edge.GetOppositeVertexFrom(this);
        RemoveHere(opposite, r);
        if Matches(c, edge) {
          indexes := indexes + [i];
        }
        i := i + 1;
      }
    }

    /**
     * The `_.remove` walk from the first index up to the end of the list or
     * to the first time a self-loop's recursion shortens it, whichever comes
     * first, over the lists `before` of the other vertices at the far ends.
     * Returns the index reached, the indexes collected and the far ends met.
     */
    method Walk(c: Criterion, edges0: seq<Edge>, ghost before: map<Vertex, seq<Edge>>)
      returns (i: nat, indexes: seq<nat>, shrunk: bool, ghost seen: set<Vertex>)
      requires Edges == edges0 && this !in before
      requires forall k :: 0 <= k < |edges0| && edges0[k].GetOppositeVertexFrom(this) != this ==> edges0[k].GetOppositeVertexFrom(this) in before
      requires Walked(c, before, {})
      modifies this, before.Keys
      ensures i <= |edges0|
      ensures shrunk <==> Shrinks(edges0, Recursed(c)) && SelfLoopBefore(this, edges0, i)
      ensures Edges == if shrunk then Rest(edges0, Recursed(c)) else edges0
      ensures i < |edges0| ==> shrunk
      ensures Shrinks(edges0, Recursed(c)) && i > 0 ==> !SelfLoopBefore(this, edges0, i - 1)
      ensures indexes == PositionsUpTo(edges0, i, c)
      ensures forall k :: 0 <= k < i ==> edges0[k].GetOppositeVertexFrom(this) in seen
      ensures Walked(c, before, seen)
    {
      var length := |Edges|;
      i, indexes, shrunk, seen := 0, [], false, {};
      ghost var last := 0;
      while i < length && !shrunk
        invariant 0 <= i <= length == |edges0|
        invariant shrunk <==> Shrinks(edges0, Recursed(c)) && SelfLoopBefore(this, edges0, i)
        invariant Edges == if shrunk then Rest(edges0, Recursed(c)) else edges0
        invariant i > 0 ==> last + 1 == i && !(Shrinks(edges0, Recursed(c)) && SelfLoopBefore(this, edges0, last))
        invariant indexes == PositionsUpTo(edges0, i, c)
        invariant forall k :: 0 <= k < i ==> edges0[k].GetOppositeVertexFrom(this) in seen
        invariant Walked(c, before, seen)
      {
        last := i;
        shrunk, indexes, seen := Sweep(c, edges0, before, seen, i, indexes);
        i := i + 1;
      }
    }

    /**
     * `Walk` over the whole list as it stands. When it reaches the end, every
     * other vertex at a far end has had the recursion's removal applied.
     */
    method WalkWhole(c: Criterion) returns (i: nat, indexes: seq<nat>, shrunk: bool)
      modifies this, Opposites(this, Edges)
      ensures i <= |old(Edges)|
      ensures shrunk <==> Shrinks(old(Edges), Recursed(c)) && SelfLoopBefore(this, old(Edges), i)
      ensures Edges == if shrunk then Rest(old(Edges), Recursed(c)) else old(Edges)
      ensures i < |old(Edges)| ==> shrunk
      ensures Shrinks(old(Edges), Recursed(c)) && i > 0 ==> !SelfLoopBefore(this, old(Edges), i - 1)
      ensures indexes == PositionsUpTo(old(Edges), i, c)
      ensures i == |old(Edges)| ==> forall n :: n in Opposites(this, old(Edges)) && n != this ==> n.Edges == Rest(old(n.Edges), Recursed(c))
    {
      var edges0 := Edges;
      ghost var before := map n | n in Opposites(this, edges0) && n != this :: n.Edges;
      ghost var seen;
      i, indexes, shrunk, seen := Walk(c, edges0, before);
      if i == |edges0| {
        forall n | n in Opposites(this, edges0) && n != this
          ensures n.Edges == Rest(old(n.Edges), Recursed(c))
        {
          var k :| 0 <= k < |edges0| && edges0[k].GetOppositeVertexFrom(this) == n;
          assert n in seen && n in before;
        }
      }
    }

    /**
     * The body shared by `RemoveEdge` and `RemoveEdgesBetween`: lodash
     * `_.remove` over this list, whose predicate first recurses into the
     * opposite end of the edge and then tests the edge. `_.remove` reads the
     * length once, collects the indexes of the matching edges and splices
     * them out at the end. A self-loop makes the recursion land on this very
     * list: when that call removes anything, the list is shorter than the
     * length read, so unless the self-loop is the last edge a later index
     * reads `undefined` and the predicate throws a `TypeError` (`threw`).
     * A self-loop in last place throws nothing, but the indexes collected on
     * the full list are then spliced out of the shortened one.
     */
    method RemoveRecursing(c: Criterion) returns (threw: bool)
      modifies this, Opposites(this, Edges)
      ensures threw <==> Shrinks(old(Edges), Recursed(c)) && SelfLoopBefore(this, old(Edges), |old(Edges)| - 1)
      ensures threw ==> Edges == Rest(old(Edges), Recursed(c))
      ensures !threw ==> Edges == PullAt(
        if Shrinks(old(Edges), Recursed(c)) && SelfLoopBefore(this, old(Edges), |old(Edges)|)
        then Rest(old(Edges), Recursed(c)) else old(Edges),
        Positions(old(Edges), c))
      ensures !threw ==> forall n :: n in Opposites(this, old(Edges)) && n != this ==> n.Edges == Rest(old(n.Edges), Recursed(c))
    {
      var r := Recursed(c);
      var edges0 := Edges;
      var length := |Edges|;
      RestFacts(edges0, r);
      var i, indexes, shrunk := WalkWhole(c);
      WalkOutcome(c, edges0, i, indexes, shrunk);
      threw := i < length;
      if threw {
        // A self-loop before the last edge shortened the list: the walk goes
        // on over the shorter list until an index falls past its end.
        RunOff(c, edges0, i, indexes);
      } else {
        Edges := PullAt(Edges, indexes);
      }
    }

    /**
     * What the end of `WalkWhole` tells `RemoveRecursing`: the walk stops
     * short exactly when a self-loop before the last edge shrank the list,
     * and a walk that reaches the end has collected every position.
     */
    lemma WalkOutcome(c: Criterion, edges0: seq<Edge>, i: nat, indexes: seq<nat>, shrunk: bool)
      requires i <= |edges0|
      requires shrunk <==> Shrinks(edges0, Recursed(c)) && SelfLoopBefore(this, edges0, i)
      requires i < |edges0| ==> shrunk
      requires Shrinks(edges0, Recursed(c)) && i > 0 ==> !SelfLoopBefore(this, edges0, i - 1)
      requires indexes == PositionsUpTo(edges0, i, c)
      ensures i < |edges0| <==> Shrinks(edges0, Recursed(c)) && SelfLoopBefore(this, edges0, |edges0| - 1)
      ensures i == |edges0| ==> indexes == Positions(edges0, c)
      ensures i == |edges0| ==> (shrunk <==> Shrinks(edges0, Recursed(c)) && SelfLoopBefore(this, edges0, |edges0|))
    {
      PositionsUpToWhole(edges0, i, c);
      if i < |edges0| {
        SelfLoopMono(this, edges0, i, |edges0| - 1);
      } else {
        assert edges0[..i] == edges0;
        if SelfLoopBefore(this, edges0, i - 1) {
          SelfLoopMono(this, edges0, i - 1, i);
        }
      }
    }

    /**
     * `RemoveEdge(target)`: every opposite end of an edge of this vertex
     * drops `target` from its list, then this vertex does. It throws when
     * `target` is stored here and a self-loop comes before the last edge.
     */
    method RemoveEdge(target: Edge) returns (threw: bool)
      modifies this, Opposites(this, Edges)
      ensures threw <==> target in old(Edges) && SelfLoopBefore(this, old(Edges), |old(Edges)| - 1)
      ensures threw ==> Edges == Without(old(Edges), target)
      ensures !SelfLoopBefore(this, old(Edges), |old(Edges)|) ==> !threw && Edges == Without(old(Edges), target)
      ensures !threw ==> Edges == PullAt(
        if target in old(Edges) && SelfLoopBefore(this, old(Edges), |old(Edges)|)
        then Without(old(Edges), target) else old(Edges),
        Positions(old(Edges), EqualTo(target)))
      ensures !threw ==> forall n :: n in Opposites(this, old(Edges)) && n != this ==> n.Edges == Without(old(n.Edges), target)
    {
      ghost var edges := Edges;
      ShrinksEqualTo(edges, target);
      if SelfLoopBefore(this, edges, |edges| - 1) {
        SelfLoopMono(this, edges, |edges| - 1, |edges|);
      }
      threw := RemoveRecursing(EqualTo(target));
      WithoutIsRest(edges, target);
      if !SelfLoopBefore(this, edges, |edges|) {
        WithoutIsRest(edges, target);
        PullPositions(edges, EqualTo(target));
      }
      forall n | n in Opposites(this, edges) && n != this && !threw
        ensures n.Edges == Without(old(n.Edges), target)
      {
        WithoutIsRest(old(n.Edges), target);
      }
    }

    /** `RemoveEdgesBetween(w, true)`: drops every edge touching `w` from this list only. */
    method RemoveEdgesBetweenHere(w: Vertex)
      modifies this
      ensures Edges == NotTouching(old(Edges), w)
    {
      Edges := NotTouching(Edges, w);
    }

    /**
     * `RemoveEdgesBetween(w)`: this list loses the edges touching `w`, and
     * every opposite end of an edge of this vertex loses its edges touching
     * this vertex (whether or not that end is `w`). A self-loop before the
     * last edge makes it throw, having stripped this list of the edges
     * touching this vertex.
     */
    method RemoveEdgesBetween(w: Vertex) returns (threw: bool)
      modifies this, Opposites(this, Edges)
      ensures threw <==> SelfLoopBefore(this, old(Edges), |old(Edges)| - 1)
      ensures threw ==> Edges == NotTouching(old(Edges), this)
      ensures !SelfLoopBefore(this, old(Edges), |old(Edges)|) ==> !threw && Edges == NotTouching(old(Edges), w)
      ensures !threw ==> Edges == PullAt(
        if SelfLoopBefore(this, old(Edges), |old(Edges)|) then NotTouching(old(Edges), this) else old(Edges),
        Positions(old(Edges), Incident(w)))
      ensures !threw ==> forall n :: n in Opposites(this, old(Edges)) && n != this ==> n.Edges == NotTouching(old(n.Edges), this)
    {
      ghost var edges := Edges;
      if SelfLoopBefore(this, edges, |edges| - 1) {
        SelfLoopTouches(this, edges, |edges| - 1);
      }
      if SelfLoopBefore(this, edges, |edges| - 1) {
        SelfLoopMono(this, edges, |edges| - 1, |edges|);
      }
      threw := RemoveRecursing(Incident(w));
      NotTouchingIsRest(edges, this);
      if SelfLoopBefore(this, edges, |edges|) {
        SelfLoopTouches(this, edges, |edges|);
      }
      if !SelfLoopBefore(this, edges, |edges|) {
        NotTouchingIsRest(edges, w);
        PullPositions(edges, Incident(w));
      }
      forall n | n in Opposites(this, edges) && n != this && !threw
        ensures n.Edges == NotTouching(old(n.Edges), this)
      {
        NotTouchingIsRest(old(n.Edges), this);
      }
    }

    /**
     * What `RemoveEdge(target)` is evidently meant to do: the same recursion,
     * over a snapshot of the list, so that a self-loop cannot shorten the
     * list being walked. It never throws, and this vertex and every opposite
     * end lose exactly the copies of `target`.
     */
    method RemoveEdgeOverSnapshot(target: Edge)
      modifies this, Opposites(this, Edges)
      ensures Edges == Without(old(Edges), target)
      ensures forall n :: n in Opposites(this, old(Edges)) ==> n.Edges == Without(old(n.Edges), target)
    {
      var edges := Edges;
      ghost var before := map n | n in Opposites(this, edges) && n != this :: n.Edges;
      ghost var seen := StripEnds(edges, before, target);
      WithoutIdempotent(edges, target);
      Edges := Without(Edges, target);
      forall n | n in Opposites(this, edges) && n != this
        ensures n.Edges == Without(old(n.Edges), target)
      {
        var k :| 0 <= k < |edges| && edges[k].GetOppositeVertexFrom(this) == n;
        assert n in seen && n in before;
      }
    }

    /**
     * The far ends met so far (`seen`) hold their list `before` without
     * `target`; the others still hold it untouched.
     */
    ghost predicate Stripped(target: Edge, before: map<Vertex, seq<Edge>>, seen: set<Vertex>)
      reads before.Keys
    {
      forall n {:trigger n in before} :: n in before ==> n.Edges == if n in seen then Without(before[n], target) else before[n]
    }

    /** The loop of `RemoveEdgeOverSnapshot`: `RemoveEdge(target, true)` on the far end of every edge of `edges`. */
    method StripEnds(edges: seq<Edge>, ghost before: map<Vertex, seq<Edge>>, target: Edge) returns (ghost seen: set<Vertex>)
      requires Edges == edges && this !in before
      requires forall k :: 0 <= k < |edges| && edges[k].GetOppositeVertexFrom(this) != this ==> edges[k].GetOppositeVertexFrom(this) in before
      requires Stripped(target, before, {})
      modifies this, before.Keys
      ensures Edges == edges || Edges == Without(edges, target)
      ensures forall k :: 0 <= k < |edges| ==> edges[k].GetOppositeVertexFrom(this) in seen
      ensures Stripped(target, before, seen)
    {
      seen := {};
      for i := 0 to |edges|
        invariant Edges == edges || Edges == Without(edges, target)
        invariant forall k :: 0 <= k < i ==> edges[k].GetOppositeVertexFrom(this) in seen
        invariant Stripped(target, before, seen)
      {
        seen := StripEnd(edges, before, target, seen, i);
      }
    }

    /** One pass of `StripEnds`: the far end of the edge at index `i`. */
    method StripEnd(edges: seq<Edge>, ghost before: map<Vertex, seq<Edge>>, target: Edge, ghost seen: set<Vertex>, i: nat)
      returns (ghost seen': set<Vertex>)
      requires i < |edges| && this !in before
      requires Edges == edges || Edges == Without(edges, target)
      requires edges[i].GetOppositeVertexFrom(this) != this ==> edges[i].GetOppositeVertexFrom(this) in before
      requires forall k :: 0 <= k < i ==> edges[k].GetOppositeVertexFrom(this) in seen
      requires Stripped(target, before, seen)
      modifies edges[i].GetOppositeVertexFrom(this)
      ensures Edges == edges || Edges == Without(edges, target)
      ensures forall k :: 0 <= k < i + 1 ==> edges[k].GetOppositeVertexFrom(this) in seen'
      ensures Stripped(target, before, seen')
    {
      var opposite := edges[i].GetOppositeVertexFrom(this);
      WithoutIdempotent(edges, target);
      if opposite != this {
        WithoutIdempotent(before[opposite], target);
      }
      opposite.RemoveEdgeHere(target);
      SeenStep(this, edges, seen, i);
      seen' := seen + {opposite};
    }

    /**
     * What `RemoveEdgesBetween(w)` is evidently meant to do: the edges
     * between this vertex and `w` leave both lists, and no other vertex
     * changes.
     */
    method RemoveEdgesBetweenBothSides(w: Vertex)
      modifies this, w
      ensures Edges == NotTouching(old(Edges), w)
      ensures w != this ==> w.Edges == NotTouching(old(w.Edges), this)
    {
      if w == this {
        NotTouchingIdempotent(Edges, w);
      }
      RemoveEdgesBetweenHere(w);
      w.RemoveEdgesBetweenHere(this);
    }

    /** Reorders the edge list by `SortIdentifier`, keeping the order of equal keys. */
    method Sort()
      modifies this
      ensures Edges == Sorting.SortBy(old(Edges), SortKey)
    {
      Edges := Sorting.SortBy(Edges, SortKey);
    }

    /** The number of undirected edges plus directed edges entering this vertex. */
    method Indegree() returns (degree: nat)
      ensures degree == IndegreeOf(this, Edges) && degree <= |Edges|
    {
      degree := 0;
      for i := 0 to |Edges|
        invariant degree == IndegreeOf(this, Edges[..i])
      {
        var edge := Edges[i];
        if !edge.Directed {
          degree := degree + 1;
        } else if edge.Directed && edge.To.ID == ID {
          degree := degree + 1;
        }
        assert Edges[..i + 1][..i] == Edges[..i];
      }
      assert Edges[..|Edges|] == Edges;
    }

    /** The number of undirected edges plus directed edges leaving this vertex. */
    method Outdegree() returns (degree: nat)
      ensures degree == OutdegreeOf(this, Edges) && degree <= |Edges|
    {
      degree := 0;
      for i := 0 to |Edges|
        invariant degree == OutdegreeOf(this, Edges[..i])
      {
        var edge := Edges[i];
        if !edge.Directed {
          degree := degree + 1;
        } else if edge.Directed && edge.From.ID == ID {
          degree := degree + 1;
        }
        assert Edges[..i + 1][..i] == Edges[..i];
      }
      assert Edges[..|Edges|] == Edges;
    }
  }

  lemma {:induction false} NotTouchingIdempotent(edges: seq<Edge>, w: Vertex)
    ensures NotTouching(NotTouching(edges, w), w) == NotTouching(edges, w)
  {
    if edges != [] {
      NotTouchingIdempotent(edges[1..], w);
      var rest := NotTouching(edges[1..], w);
      var once := NotTouching(edges, w);
      if !edges[0].HasVertex(w) {
        assert once == [edges[0]] + rest;
        assert once[0] == edges[0] && once[1..] == rest;
        assert NotTouching(once, w) == [edges[0]] + NotTouching(rest, w);
      } else {
        assert once == rest;
      }
    }
  }
  /**
   * `a` joined to `b` and to `c`. As written, `a.RemoveEdgesBetween(b)`
   * also empties `c`'s list, while `a` keeps its edge to `c`: the two
   * copies of that edge no longer agree.
   */
  method RemoveEdgesBetweenStripsBystander() returns (a: Vertex, c: Vertex, ac: Edge)
    ensures a.Edges == [ac] && ac.HasVertex(c)
    ensures c.Edges == []
  {
    a := new Vertex(Some("a"), None, "");
    var b := new Vertex(Some("b"), None, "");
    c := new Vertex(Some("c"), None, "");
    var ab := a.AddEdgeTo(b, None, None, None, None);
    ac := a.AddEdgeTo(c, None, None, None, None);
    assert a.Edges == [ab, ac];
    assert ab.GetOppositeVertexFrom(a) == b && ac.GetOppositeVertexFrom(a) == c;
    assert a.Edges[1].GetOppositeVertexFrom(a) == c;
    assert !SelfLoopBefore(a, a.Edges, 2);
    var threw := a.RemoveEdgesBetween(b);
  }

  /** The same three vertices: removing the edges between `a` and `b` on both sides leaves `a`–`c` at both ends. */
  method RemoveEdgesBetweenSparesBystander() returns (a: Vertex, c: Vertex, ac: Edge)
    ensures a.Edges == [ac] && ac.HasVertex(c)
    ensures c.Edges == [ac]
  {
    a := new Vertex(Some("a"), None, "");
    var b := new Vertex(Some("b"), None, "");
    c := new Vertex(Some("c"), None, "");
    var ab := a.AddEdgeTo(b, None, None, None, None);
    ac := a.AddEdgeTo(c, None, None, None, None);
    a.RemoveEdgesBetweenBothSides(b);
  }

  /**
   * `v` with a self-loop (stored twice, as `AddEdgeTo(v)` stores it) and an
   * edge to `t`. As written, `v.RemoveEdge(e)` throws: the self-loop's
   * recursion drops `e` from the list `_.remove` is walking, and the walk
   * then reads past the end.
   */
  method SelfLoopRemoveEdgeThrows() returns (threw: bool)
    ensures threw
  {
    var v := new Vertex(Some("v"), None, "");
    var t := new Vertex(Some("t"), None, "");
    var loop := v.AddEdgeTo(v, None, None, None, None);
    var e := v.AddEdgeTo(t, None, None, None, None);
    assert v.Edges == [loop, loop, e];
    assert SelfLoopBefore(v, v.Edges, 2);
    threw := v.RemoveEdge(e);
  }

  /** The same two vertices: removing `e` over a snapshot leaves `v` its self-loop and `t` nothing. */
  method SelfLoopRemoveEdgeOverSnapshot() returns (v: Vertex, t: Vertex, loop: Edge)
    ensures v.Edges == [loop, loop] && loop.From == v && loop.To == v
    ensures t.Edges == []
  {
    v := new Vertex(Some("v"), None, "");
    t := new Vertex(Some("t"), None, "");
    loop := v.AddEdgeTo(v, None, None, None, None);
    var e := v.AddEdgeTo(t, None, None, None, None);
    assert v.Edges == [loop, loop, e] && t.Edges == [e];
    assert loop != e;
    assert e.GetOppositeVertexFrom(v) == t && e in v.Edges;
    assert t in Opposites(v, v.Edges);
    v.RemoveEdgeOverSnapshot(e);
    assert Without([e], e) == [];
    assert Without([loop, loop, e], e) == [loop] + Without([loop, e], e);
    assert Without([loop, e], e) == [loop] + Without([e], e);
  }
}
