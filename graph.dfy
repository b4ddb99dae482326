/**
 * The graph of Lib/Graphing/Graph.js: vertices held in a map keyed by their
 * IDs, iterated in insertion order, each vertex keeping its own edge list.
 * The depth-first search and the operations built on it are proved equal to
 * the functions of `Traversal`, whose theorems then apply.
 */
module Graphs {
  import opened Wrappers
  import opened Graphing
  import Traversal
  import Sorting

  /** The options of `DepthFirstSearch`; an absent option takes its default. */
  datatype SearchOptions = SearchOptions(
    Sources: Option<seq<string>>,
    IncludeSources: Option<bool>,
    AllowCycle: Option<bool>,
    IsDirected: Option<bool>,
    TopologicalSorting: Option<bool>)

  /** What the graph operations throw. */
  datatype GraphError =
    | AlreadyExists(id: string)
    | NoSuchVertex(id: string)
    | NotMeaningful
    | CycleExists(from: string, to: Option<string>)
    | MissingEndpoint

  /** The IDs of a list of vertices, in order. */
  function Ids(vs: seq<Vertex>): (ids: seq<string>)
    ensures |ids| == |vs| && forall i :: 0 <= i < |vs| ==> ids[i] == vs[i].ID
  {
    if vs == [] then [] else [vs[0].ID] + Ids(vs[1..])
  }

  /** A vertex whose ID an earlier vertex already has makes the IDs repeat. */
  lemma FirstDuplicate(vs: seq<Vertex>, i: int)
    requires 0 <= i < |vs| && vs[i].ID in Ids(vs[..i])
    ensures !Traversal.NoDuplicates(Ids(vs))
  {
    var k :| 0 <= k < i && Ids(vs[..i])[k] == vs[i].ID;
    assert Ids(vs)[k] == vs[k].ID == vs[i].ID == Ids(vs)[i];
  }

  /**
   * Vertex `i` is the first whose ID an earlier vertex already has: the
   * IDs repeat, and the failure `CopyAll` reports names it.
   */
  lemma DuplicateFound(vs: seq<Vertex>, i: int)
    requires 0 <= i < |vs| && vs[i].ID in Ids(vs[..i]) && Traversal.NoDuplicates(Ids(vs[..i]))
    ensures !Traversal.NoDuplicates(Ids(vs))
    ensures exists k :: 0 <= k < |vs| && AlreadyExists(vs[i].ID) == AlreadyExists(vs[k].ID)
                        && vs[k].ID in Ids(vs[..k]) && Traversal.NoDuplicates(Ids(vs[..k]))
  {
    FirstDuplicate(vs, i);
  }

  /** `s` without `x`, in order. */
  function Remove(s: seq<string>, x: string): (r: seq<string>)
    ensures forall y :: y in r <==> y in s && y != x
    ensures Traversal.NoDuplicates(s) ==> Traversal.NoDuplicates(r)
  {
    if s == [] then []
    else
      var rest := Remove(s[1..], x);
      assert Traversal.NoDuplicates(s) ==> Traversal.NoDuplicates(s[1..]) && s[0] !in s[1..];
      if s[0] == x then rest else [s[0]] + rest
  }

  /** The same edges with `Directed` set to `b`. */
  function WithDirection(edges: seq<Edge>, b: bool): (r: seq<Edge>)
    ensures |r| == |edges|
    ensures forall k :: 0 <= k < |edges| ==> r[k] == edges[k].(Directed := b)
  {
    if edges == [] then [] else [edges[0].(Directed := b)] + WithDirection(edges[1..], b)
  }

  /** The leaf test of `GetLeaves` for one vertex. */
  ghost predicate IsLeaf(v: Vertex, directed: bool)
    reads v
  {
    if directed then OutdegreeOf(v, v.Edges) == 0 && IndegreeOf(v, v.Edges) >= 1
    else IndegreeOf(v, v.Edges) == 1
  }

  /** The root test of `GetRoots`: no stored edge enters `v`. */
  ghost predicate IsRoot(v: Vertex)
    reads v
  {
    IndegreeOf(v, v.Edges) == 0
  }

  /**
   * The outcome of the search of `DepthFirstSearch(opt)` over the adjacency
   * `adj`, with `order` the vertex IDs in insertion order and `directed` the
   * effective `IsDirected` option.
   */
  ghost function SearchOver(adj: Traversal.Adj, order: seq<string>, directed: bool, opt: SearchOptions): Result<seq<string>, GraphError>
    requires Traversal.Closed(adj)
    requires forall j :: 0 <= j < |order| ==> order[j] in adj
    requires opt.Sources.Some? ==> forall j :: 0 <= j < |opt.Sources.value| ==> opt.Sources.value[j] in adj
  {
    if opt.TopologicalSorting.GetOr(false) && !directed then Err(NotMeaningful)
    else
      var flags := Traversal.Flags(directed, opt.AllowCycle.GetOr(true));
      match Traversal.Search(adj, flags, opt.Sources.GetOr(order), opt.IncludeSources.GetOr(true))
      case Completed(st) => Ok(st.list)
      case CycleFound(v, p) => Err(CycleExists(v, p))
  }

  /**
   * A directed search from every vertex with cycles refused completes
   * exactly when there is no cycle, and otherwise reports one.
   */
  lemma CycleSearchOver(adj: Traversal.Adj, order: seq<string>, opt: SearchOptions)
    requires Traversal.Closed(adj) && Traversal.CoversAll(adj, order)
    requires opt.Sources.None? && opt.IncludeSources != Some(false) && opt.AllowCycle == Some(false)
    ensures var spec := SearchOver(adj, order, true, opt);
      (spec.Ok? <==> !Traversal.HasCycle(adj)) && (spec.Err? ==> spec.error.CycleExists?)
  {
    Traversal.SearchThrowsIffCycle(adj, order);
  }

  /** `SearchOver` when the sources are visited: the outcome of the loop over them. */
  lemma SearchOverIncluding(adj: Traversal.Adj, order: seq<string>, directed: bool, opt: SearchOptions)
    requires Traversal.Closed(adj)
    requires forall j :: 0 <= j < |order| ==> order[j] in adj
    requires opt.Sources.Some? ==> forall j :: 0 <= j < |opt.Sources.value| ==> opt.Sources.value[j] in adj
    requires !(opt.TopologicalSorting.GetOr(false) && !directed) && opt.IncludeSources.GetOr(true)
    ensures var o := Traversal.VisitSources(adj, Traversal.Flags(directed, opt.AllowCycle.GetOr(true)),
                                            opt.Sources.GetOr(order), 0, Traversal.State({}, {}, []));
      SearchOver(adj, order, directed, opt) == if o.CycleFound? then Err(CycleExists(o.vertex, o.parent)) else Ok(o.state.list)
  {
  }

  /**
   * The edges of `edges` whose far end, seen from `v`, has an ID outside
   * `keys`, in order: what `_prune` collects from one vertex.
   */
  function Dangling(v: Vertex, edges: seq<Edge>, keys: set<string>): seq<Edge> {
    if edges == [] then []
    else
      var e := edges[|edges| - 1];
      Dangling(v, edges[..|edges| - 1], keys) + (if e.GetOppositeVertexFrom(v).ID in keys then [] else [e])
  }

  lemma {:induction false} DanglingMembers(v: Vertex, edges: seq<Edge>, keys: set<string>)
    ensures forall e :: e in Dangling(v, edges, keys) <==> e in edges && e.GetOppositeVertexFrom(v).ID !in keys
  {
    if edges != [] {
      DanglingMembers(v, edges[..|edges| - 1], keys);
      assert edges == edges[..|edges| - 1] + [edges[|edges| - 1]];
    }
  }

  /** The dangling edges of each vertex of `vs` in turn. */
  ghost function DanglingIn(vs: seq<Vertex>, keys: set<string>): seq<Edge>
    reads set j | 0 <= j < |vs| :: vs[j]
  {
    if vs == [] then []
    else
      var v := vs[|vs| - 1];
      DanglingIn(vs[..|vs| - 1], keys) + Dangling(v, v.Edges, keys)
  }

  /** Extending the prefix by one vertex appends that vertex's dangling edges. */
  lemma DanglingInStep(vs: seq<Vertex>, i: int, keys: set<string>)
    requires 0 <= i < |vs|
    ensures DanglingIn(vs[..i + 1], keys) == DanglingIn(vs[..i], keys) + Dangling(vs[i], vs[i].Edges, keys)
  {
    assert vs[..i + 1][..i] == vs[..i];
  }

  lemma {:induction false} DanglingInMembers(vs: seq<Vertex>, keys: set<string>)
    ensures forall e :: e in DanglingIn(vs, keys) <==>
      exists j :: 0 <= j < |vs| && e in vs[j].Edges && e.GetOppositeVertexFrom(vs[j]).ID !in keys
  {
    if vs != [] {
      var init := vs[..|vs| - 1];
      var v := vs[|vs| - 1];
      DanglingInMembers(init, keys);
      DanglingMembers(v, v.Edges, keys);
      forall e
        ensures e in DanglingIn(vs, keys) <==>
          exists j :: 0 <= j < |vs| && e in vs[j].Edges && e.GetOppositeVertexFrom(vs[j]).ID !in keys
      {
        if exists j :: 0 <= j < |vs| && e in vs[j].Edges && e.GetOppositeVertexFrom(vs[j]).ID !in keys {
          var j :| 0 <= j < |vs| && e in vs[j].Edges && e.GetOppositeVertexFrom(vs[j]).ID !in keys;
          if j < |vs| - 1 {
            assert init[j] == vs[j];
          }
        }
        if e in DanglingIn(init, keys) {
          var j :| 0 <= j < |init| && e in init[j].Edges && e.GetOppositeVertexFrom(init[j]).ID !in keys;
          assert vs[j] == init[j];
        }
      }
    }
  }

  /** Two lists of vertices with the same IDs and edge lists, position by position, have the same dangling edges. */
  lemma {:induction false} DanglingInSameShape(vs: seq<Vertex>, ws: seq<Vertex>, keys: set<string>)
    requires |vs| == |ws|
    requires forall j :: 0 <= j < |vs| ==> vs[j].ID == ws[j].ID && vs[j].Edges == ws[j].Edges
    ensures DanglingIn(vs, keys) == DanglingIn(ws, keys)
  {
    if vs != [] {
      DanglingInSameShape(vs[..|vs| - 1], ws[..|ws| - 1], keys);
      var v, w := vs[|vs| - 1], ws[|ws| - 1];
      DanglingSameId(v, w, v.Edges, keys);
    }
  }

  lemma {:induction false} DanglingSameId(v: Vertex, w: Vertex, edges: seq<Edge>, keys: set<string>)
    requires v.ID == w.ID
    ensures Dangling(v, edges, keys) == Dangling(w, edges, keys)
  {
    if edges != [] {
      DanglingSameId(v, w, edges[..|edges| - 1], keys);
    }
  }

  /** `edges` after removing each of `targets` in turn. */
  function WithoutAll(edges: seq<Edge>, targets: seq<Edge>): seq<Edge> {
    if targets == [] then edges
    else Without(WithoutAll(edges, targets[..|targets| - 1]), targets[|targets| - 1])
  }

  lemma {:induction false} WithoutAllMembers(edges: seq<Edge>, targets: seq<Edge>)
    ensures forall e :: e in WithoutAll(edges, targets) <==> e in edges && e !in targets
  {
    if targets != [] {
      var init := targets[..|targets| - 1];
      WithoutAllMembers(edges, init);
      WithoutMembers(WithoutAll(edges, init), targets[|targets| - 1]);
      assert targets == init + [targets[|targets| - 1]];
    }
  }

  /** Every vertex of `vs` holds only edges that have it as an end. */
  ghost predicate EdgesTouchHolders(vs: seq<Vertex>)
    reads set j | 0 <= j < |vs| :: vs[j]
  {
    forall j, k :: 0 <= j < |vs| && 0 <= k < |vs[j].Edges| ==> vs[j].Edges[k].HasVertex(vs[j])
  }

  /**
   * When the vertices of a fragment have distinct IDs and hold only their
   * own edges, pruning keeps an edge of a vertex exactly when its far end
   * is in the fragment.
   */
  lemma FragmentKeepsInnerEdges(vs: seq<Vertex>, keys: set<string>, j: nat, e: Edge)
    requires Traversal.NoDuplicates(Ids(vs)) && EdgesTouchHolders(vs)
    requires forall i :: 0 <= i < |vs| ==> vs[i].ID in keys
    requires j < |vs|
    ensures e in WithoutAll(vs[j].Edges, DanglingIn(vs, keys)) <==> e in vs[j].Edges && e.GetOppositeVertexFrom(vs[j]).ID in keys
  {
    WithoutAllMembers(vs[j].Edges, DanglingIn(vs, keys));
    DanglingInMembers(vs, keys);
  }

  // ----- Serialized form -----

  /** What `Serialize()` returns: the vertex IDs and the edge records. */
  datatype SerializedGraph = SerializedGraph(Vertices: seq<string>, Edges: seq<EdgeRecord>)

  /** lodash `_.uniqWith(xs, _.isEqual)`: the first occurrence of each value, in order. */
  function Unique<T(==,!new)>(s: seq<T>): (r: seq<T>)
    ensures forall x :: x in r <==> x in s
    ensures forall i, j :: 0 <= i < j < |r| ==> r[i] != r[j]
  {
    if s == [] then []
    else
      var init := Unique(s[..|s| - 1]);
      if s[|s| - 1] in init then init else init + [s[|s| - 1]]
  }

  /** A list without repeats is its own `Unique`. */
  lemma {:induction false} UniqueOfDistinct<T(!new)>(s: seq<T>)
    requires forall i, j :: 0 <= i < j < |s| ==> s[i] != s[j]
    ensures Unique(s) == s
  {
    if s != [] {
      UniqueOfDistinct(s[..|s| - 1]);
      assert s[|s| - 1] !in s[..|s| - 1];
    }
  }

  /** The records of a list of edges, in order. */
  function Records(edges: seq<Edge>): (r: seq<EdgeRecord>)
    ensures |r| == |edges| && forall k :: 0 <= k < |edges| ==> r[k] == edges[k].Serialize()
  {
    if edges == [] then [] else Records(edges[..|edges| - 1]) + [edges[|edges| - 1].Serialize()]
  }

  /** The records with `id` at one end or both, in order. */
  function Touching(records: seq<EdgeRecord>, id: string): (r: seq<EdgeRecord>)
    ensures forall x :: x in r <==> x in records && (x.From == id || x.To == id)
  {
    if records == [] then []
    else
      var x := records[|records| - 1];
      Touching(records[..|records| - 1], id) + (if x.From == id || x.To == id then [x] else [])
  }

  /** The edges with an end whose ID is `id`, in order. */
  function TouchingEdges(edges: seq<Edge>, id: string): (r: seq<Edge>)
    ensures forall k :: 0 <= k < |r| ==> r[k] in edges && (r[k].From.ID == id || r[k].To.ID == id)
  {
    if edges == [] then []
    else
      var e := edges[|edges| - 1];
      TouchingEdges(edges[..|edges| - 1], id) + (if e.From.ID == id || e.To.ID == id then [e] else [])
  }

  /** Edges rebuilt from records serialize back to those records, so `Touching` agrees on both. */
  lemma {:induction false} TouchingEdgesRecords(edges: seq<Edge>, records: seq<EdgeRecord>, id: string)
    requires |edges| == |records| && forall k :: 0 <= k < |edges| ==> edges[k].Serialize() == records[k]
    ensures Records(TouchingEdges(edges, id)) == Touching(records, id)
  {
    if edges != [] {
      var n := |edges| - 1;
      TouchingEdgesRecords(edges[..n], records[..n], id);
      var e := edges[n];
      if e.From.ID == id || e.To.ID == id {
        assert TouchingEdges(edges, id) == TouchingEdges(edges[..n], id) + [e];
        assert Records(TouchingEdges(edges, id))
            == Records(TouchingEdges(edges[..n], id)) + [e.Serialize()];
      } else {
        assert TouchingEdges(edges, id) == TouchingEdges(edges[..n], id);
      }
    }
  }

  /** Both ends of `e` are the vertices stored under their IDs. */
  predicate EdgeWithin(vertices: map<string, Vertex>, e: Edge) {
    e.From.ID in vertices && vertices[e.From.ID] == e.From && e.To.ID in vertices && vertices[e.To.ID] == e.To
  }

  /** Both ends of the record name vertices in `ids`. */
  predicate Known(x: EdgeRecord, ids: seq<string>) {
    x.From in ids && x.To in ids
  }

  class Graph {
    var Vertices: map<string, Vertex>
    /** The insertion order of the keys of `Vertices`, in which the source iterates them. */
    var Order: seq<string>

    ghost predicate Valid()
      reads this
    {
      && (forall id :: id in Vertices ==> Vertices[id].ID == id)
      && Traversal.NoDuplicates(Order)
      && (forall id :: id in Vertices <==> id in Order)
    }

    /** `new Graph()`: no vertices. */
    constructor ()
      ensures Valid() && Vertices == map[] && Order == []
    {
      Vertices := map[];
      Order := [];
    }

    /** `new Graph({ Vertices: vertices })`, keys in `order`. */
    constructor Of(vertices: map<string, Vertex>, order: seq<string>)
      ensures Vertices == vertices && Order == order
    {
      Vertices, Order := vertices, order;
    }

    /** Inserts `v` under its ID unless that ID is taken, in which case nothing changes. */
    method AddVertex(v: Vertex) returns (r: Outcome<GraphError>)
      requires Valid()
      modifies this
      ensures Valid()
      ensures v.ID in old(Vertices) ==> r == Fail(AlreadyExists(v.ID)) && Vertices == old(Vertices) && Order == old(Order)
      ensures v.ID !in old(Vertices) ==> r == Pass && Vertices == old(Vertices)[v.ID := v] && Order == old(Order) + [v.ID]
    {
      if v.ID !in Vertices {
        Vertices := Vertices[v.ID := v];
        Order := Order + [v.ID];
        r := Pass;
      } else {
        r := Fail(AlreadyExists(v.ID));
      }
    }

    /** Deletes the map entry for `v`'s ID (the vertex's edges are left alone); throws when there is none. */
    method RemoveVertex(v: Vertex) returns (r: Outcome<GraphError>)
      requires Valid()
      modifies this
      ensures Valid()
      ensures v.ID !in old(Vertices) ==> r == Fail(NoSuchVertex(v.ID)) && Vertices == old(Vertices) && Order == old(Order)
      ensures v.ID in old(Vertices) ==> r == Pass && Vertices == old(Vertices) - {v.ID} && Order == Remove(old(Order), v.ID)
    {
      if v.ID in Vertices {
        Vertices := Vertices - {v.ID};
        Order := Remove(Order, v.ID);
        r := Pass;
      } else {
        r := Fail(NoSuchVertex(v.ID));
      }
    }

    /** Whether the graph has a vertex with `v`'s ID. */
    predicate HasVertex(v: Vertex)
      reads this
    {
      v.ID in Vertices
    }

    /** Whether some vertex stores an edge structurally equal to `target`. */
    method HasEdge(target: Edge) returns (found: bool)
      requires Valid()
      ensures found <==> exists id :: id in Vertices && target in Vertices[id].Edges
    {
      for i := 0 to |Order|
        invariant forall j :: 0 <= j < i ==> target !in Vertices[Order[j]].Edges
      {
        var has := Vertices[Order[i]].HasEdge(target);
        if has {
          return true;
        }
      }
      return false;
    }

    /** The vertex with ID `id` stores an edge touching `w`. */
    ghost predicate Touches(id: string, w: Vertex)
      reads this, Vertices.Values
    {
      id in Vertices && exists e :: e in Vertices[id].Edges && e.HasVertex(w)
    }

    /**
     * Walking the IDs of `order`: at `left`'s vertex the first of its edges
     * touching `right`, at `right`'s the first touching `left`, and the first
     * such edge met along the way.
     */
    ghost function FirstBetween(order: seq<string>, left: Vertex, right: Vertex): Option<Edge>
      reads this, Vertices.Values
      requires forall id :: id in order ==> id in Vertices
    {
      if order == [] then None
      else if HitAt(order[0], left, right).Some? then HitAt(order[0], left, right)
      else FirstBetween(order[1..], left, right)
    }

    /** What `GetEdgeBetween` finds at the vertex with ID `id`. */
    ghost function HitAt(id: string, left: Vertex, right: Vertex): Option<Edge>
      reads this, Vertices.Values
      requires id in Vertices
    {
      if id == left.ID then Graphing.FirstTouching(Vertices[id].Edges, right)
      else if id == right.ID then Graphing.FirstTouching(Vertices[id].Edges, left)
      else None
    }

    /**
     * The edge found is the one at the first ID of `order` where `left`'s or
     * `right`'s vertex holds an edge touching the other endpoint.
     */
    lemma {:induction false} FirstBetweenAt(order: seq<string>, left: Vertex, right: Vertex, i: nat)
      requires forall id :: id in order ==> id in Vertices
      requires i < |order| && HitAt(order[i], left, right).Some?
      requires forall j :: 0 <= j < i ==> HitAt(order[j], left, right).None?
      ensures FirstBetween(order, left, right) == HitAt(order[i], left, right)
    {
      if i > 0 {
        assert HitAt(order[0], left, right).None?;
        FirstBetweenAt(order[1..], left, right, i - 1);
      }
    }

    /**
     * The first edge found, in insertion order of the vertices, in the list of
     * `left`'s vertex touching `right` or in the list of `right`'s vertex
     * touching `left`.
     */
    method GetEdgeBetween(left: Vertex, right: Vertex) returns (r: Option<Edge>)
      requires Valid()
      ensures r.None? <==> !Touches(left.ID, right) && !Touches(right.ID, left)
      ensures r.Some? ==> (left.ID in Vertices && r.value in Vertices[left.ID].Edges && r.value.HasVertex(right))
                          || (right.ID in Vertices && r.value in Vertices[right.ID].Edges && r.value.HasVertex(left))
      ensures r == FirstBetween(Order, left, right)
    {
      for i := 0 to |Order|
        invariant forall j :: 0 <= j < i && Order[j] == left.ID ==> !Touches(left.ID, right)
        invariant forall j :: 0 <= j < i && Order[j] == right.ID && Order[j] != left.ID ==> !Touches(right.ID, left)
        invariant FirstBetween(Order, left, right) == FirstBetween(Order[i..], left, right)
      {
        assert Order[i..][1..] == Order[i + 1..];
        var vertex := Vertices[Order[i]];
        if vertex.ID == left.ID {
          var test := vertex.GetEdgeBetween(right);
          assert HitAt(Order[i], left, right) == test;
          if test.Some? {
            return test;
          }
        } else if vertex.ID == right.ID {
          var test := vertex.GetEdgeBetween(left);
          assert HitAt(Order[i], left, right) == test;
          if test.Some? {
            return test;
          }
        }
      }
      assert Order[|Order|..] == [];
      return None;
    }

    /** Whether `GetEdgeBetween` finds an edge. */
    method HasEdgeBetween(left: Vertex, right: Vertex) returns (b: bool)
      requires Valid()
      ensures b <==> Touches(left.ID, right) || Touches(right.ID, left)
    {
      var r := GetEdgeBetween(left, right);
      b := r.Some?;
    }

    /** Some stored edge is directed. */
    ghost predicate AnyDirected()
      reads this, Vertices.Values
    {
      exists id, k :: id in Vertices && 0 <= k < |Vertices[id].Edges| && Vertices[id].Edges[k].Directed
    }

    /** Some vertex stores an edge. */
    ghost predicate AnyEdge()
      reads this, Vertices.Values
    {
      exists id :: id in Vertices && |Vertices[id].Edges| > 0
    }

    /** Whether any stored edge is directed. */
    method IsDirected() returns (b: bool)
      requires Valid()
      ensures b == AnyDirected()
    {
      for i := 0 to |Order|
        invariant forall j, k :: 0 <= j < i && 0 <= k < |Vertices[Order[j]].Edges| ==> !Vertices[Order[j]].Edges[k].Directed
      {
        var edges := Vertices[Order[i]].Edges;
        for k := 0 to |edges|
          invariant forall m :: 0 <= m < k ==> !edges[m].Directed
        {
          if edges[k].Directed {
            return true;
          }
        }
      }
      return false;
    }

    /** Sets the direction of every stored edge. */
    method SetAllDirected(b: bool)
      requires Valid()
      modifies Vertices.Values
      ensures Valid()
      ensures forall id :: id in Vertices ==> Vertices[id].Edges == WithDirection(old(Vertices[id].Edges), b)
      ensures AnyDirected() <==> b && AnyEdge()
    {
      DirectEach(b);
      AllDirectedAs(b);
    }

    /** The loop of `setAllDirected`, over the vertices in insertion order. */
    method DirectEach(b: bool)
      requires Valid()
      modifies Vertices.Values
      ensures forall id :: id in Vertices ==> Vertices[id].Edges == WithDirection(old(Vertices[id].Edges), b)
    {
      for i := 0 to |Order|
        invariant forall j :: 0 <= j < i ==> Vertices[Order[j]].Edges == WithDirection(old(Vertices[Order[j]].Edges), b)
        invariant forall j :: i <= j < |Order| ==> Vertices[Order[j]].Edges == old(Vertices[Order[j]].Edges)
      {
        var v := Vertices[Order[i]];
        v.Edges := WithDirection(v.Edges, b);
      }
      assert forall id :: id in Vertices ==> exists j :: 0 <= j < |Order| && Order[j] == id;
    }

    /** When every stored edge has direction `b`, some edge is directed exactly when `b` holds and an edge exists. */
    lemma AllDirectedAs(b: bool)
      requires forall id, k :: id in Vertices && 0 <= k < |Vertices[id].Edges| ==> Vertices[id].Edges[k].Directed == b
      ensures AnyDirected() <==> b && AnyEdge()
    {
      if AnyEdge() && b {
        var id :| id in Vertices && |Vertices[id].Edges| > 0;
        assert Vertices[id].Edges[0].Directed;
      }
    }

    // ----- Depth-first search -----

    /** For each vertex ID, the IDs `GetAdjacent` reports. */
    ghost function Adjacency(): Traversal.Adj
      reads this, Vertices.Values
    {
      map id | id in Vertices :: Ids(AdjacentOf(Vertices[id], Vertices[id].Edges))
    }

    /** `adj` lists, for every vertex, the IDs of its adjacent vertices. */
    ghost predicate Describes(adj: Traversal.Adj)
      reads this, Vertices.Values
    {
      && adj.Keys == Vertices.Keys
      && forall id :: id in Vertices ==> adj[id] == Ids(AdjacentOf(Vertices[id], Vertices[id].Edges))
    }

    lemma AdjacencyDescribes()
      ensures Describes(Adjacency())
    {
    }

    /** The sources of a search, given or defaulted to every vertex, are vertices of `adj`. */
    lemma SourcesInAdjacency(opt: SearchOptions, adj: Traversal.Adj)
      requires Valid() && Describes(adj) && SourcesKnown(opt)
      ensures forall j :: 0 <= j < |Order| ==> Order[j] in adj
      ensures var sources := opt.Sources.GetOr(Order);
        forall j :: 0 <= j < |sources| ==> sources[j] in adj
    {
      assert adj.Keys == Vertices.Keys;
    }

    /** Every given source is a vertex of the graph. */
    predicate SourcesKnown(opt: SearchOptions)
      reads this
    {
      opt.Sources.Some? ==> forall j :: 0 <= j < |opt.Sources.value| ==> opt.Sources.value[j] in Vertices
    }

    /** The direction the search assumes: the option, else whether some edge is directed. */
    ghost function Directedness(opt: SearchOptions): bool
      reads this, Vertices.Values
    {
      if opt.IsDirected.Some? then opt.IsDirected.value else AnyDirected()
    }

    /** What `DepthFirstSearch(opt)` returns or throws. */
    ghost function SearchResult(opt: SearchOptions): Result<seq<string>, GraphError>
      reads this, Vertices.Values
      requires Valid() && Traversal.Closed(Adjacency()) && SourcesKnown(opt)
    {
      SearchOver(Adjacency(), Order, Directedness(opt), opt)
    }

    /** `dfs_visit(v, parent)` on the vertex objects. */
    method Visit(ghost adj: Traversal.Adj, f: Traversal.Flags, v: string, parent: Option<string>, s: Traversal.State)
      returns (r: Traversal.Outcome)
      requires Valid() && Describes(adj) && Traversal.Closed(adj) && v in adj && s.visited <= adj.Keys
      ensures r == Traversal.Visit(adj, f, v, parent, s)
      decreases |adj.Keys - s.visited|, 0
    {
      if !f.allowCycle && (if f.directed then v in s.visiting else v in s.visited) {
        return Traversal.CycleFound(v, parent);
      }
      if v in s.visited {
        return Traversal.Completed(s);
      }
      var entered := Traversal.Enter(s, v);
      assert adj.Keys - entered.visited == (adj.Keys - s.visited) - {v};
      assert |adj.Keys - entered.visited| < |adj.Keys - s.visited|;
      Traversal.VisitUnvisited(adj, f, v, parent, s);
      r := VisitAdjacents(adj, f, v, parent, entered);
      if r.Completed? {
        r := Traversal.Completed(Traversal.Leave(r.state, v));
      }
    }

    /** The loop of `dfs_visit(v, parent)` over the adjacents of `v`. */
    method VisitAdjacents(ghost adj: Traversal.Adj, f: Traversal.Flags, v: string, parent: Option<string>, entered: Traversal.State)
      returns (r: Traversal.Outcome)
      requires Valid() && Describes(adj) && Traversal.Closed(adj) && v in adj && entered.visited <= adj.Keys
      ensures r == Traversal.VisitAdjacent(adj, f, v, parent, 0, entered)
      decreases |adj.Keys - entered.visited|, 1
    {
      var adjacent := Vertices[v].GetAdjacent();
      assert Ids(adjacent) == adj[v];
      var st := entered;
      var i := 0;
      while i < |adjacent|
        invariant i <= |adjacent|
        invariant entered.visited <= st.visited <= adj.Keys
        invariant Traversal.VisitAdjacent(adj, f, v, parent, 0, entered) == Traversal.VisitAdjacent(adj, f, v, parent, i, st)
      {
        var a := adjacent[i].ID;
        assert a == adj[v][i];
        Traversal.VisitAdjacentStep(adj, f, v, parent, i, st);
        if f.directed || parent.None? || a != parent.value {
          Traversal.SubsetSmaller(adj.Keys - st.visited, adj.Keys - entered.visited);
          var r1 := Visit(adj, f, a, Some(v), st);
          if r1.CycleFound? {
            return r1;
          }
          st := r1.state;
        }
        i := i + 1;
      }
      return Traversal.Completed(st);
    }

    /** The loop of `DepthFirstSearch` that starts a visit from each unvisited source. */
    method VisitSources(ghost adj: Traversal.Adj, f: Traversal.Flags, sources: seq<string>) returns (o: Traversal.Outcome)
      requires Valid() && Describes(adj) && Traversal.Closed(adj)
      requires forall j :: 0 <= j < |sources| ==> sources[j] in adj
      ensures o == Traversal.VisitSources(adj, f, sources, 0, Traversal.State({}, {}, []))
    {
      var start := Traversal.State({}, {}, []);
      var st := start;
      var i := 0;
      while i < |sources|
        invariant i <= |sources| && st.visited <= adj.Keys
        invariant Traversal.VisitSources(adj, f, sources, 0, start) == Traversal.VisitSources(adj, f, sources, i, st)
      {
        Traversal.VisitSourcesStep(adj, f, sources, i, st);
        if sources[i] !in st.visited {
          var r1 := Visit(adj, f, sources[i], None, st);
          if r1.CycleFound? {
            return r1;
          }
          st := r1.state;
        }
        i := i + 1;
      }
      return Traversal.Completed(st);
    }

    /** The loop of `DepthFirstSearch` that marks every source visited when `IncludeSources` is off. */
    static method MarkVisited(sources: seq<string>) returns (visited: set<string>)
      ensures forall j :: 0 <= j < |sources| ==> sources[j] in visited
    {
      visited := {};
      for i := 0 to |sources|
        invariant forall j :: 0 <= j < i ==> sources[j] in visited
      {
        visited := visited + {sources[i]};
      }
    }

    /** The `IsDirected` option of a search, defaulting to `IsDirected()`. */
    method ResolveDirected(opt: SearchOptions) returns (directed: bool)
      requires Valid()
      ensures directed == Directedness(opt)
    {
      if opt.IsDirected.Some? {
        directed := opt.IsDirected.value;
      } else {
        directed := IsDirected();
      }
    }

    /**
     * `DepthFirstSearch(opt)`: the IDs of the vertices in the order they were
     * finished, or the error the search throws.
     */
    method DepthFirstSearch(opt: SearchOptions) returns (r: Result<seq<string>, GraphError>)
      requires Valid() && Traversal.Closed(Adjacency()) && SourcesKnown(opt)
      ensures r == SearchResult(opt)
    {
      var directed := ResolveDirected(opt);
      ghost var adj := Adjacency();
      AdjacencyDescribes();
      SourcesInAdjacency(opt, adj);
      var sources := opt.Sources.GetOr(Order);
      ghost var spec := SearchOver(adj, Order, directed, opt);
      assert spec == SearchResult(opt);
      if opt.TopologicalSorting.GetOr(false) && !directed {
        return Err(NotMeaningful);
      }
      var f := Traversal.Flags(directed, opt.AllowCycle.GetOr(true));
      if opt.IncludeSources.GetOr(true) {
        var o := VisitSources(adj, f, sources);
        r := if o.CycleFound? then Err(CycleExists(o.vertex, o.parent)) else Ok(o.state.list);
        SearchOverIncluding(adj, Order, directed, opt);
      } else {
        // Every source is first marked visited, so the loop that follows
        // starts no visit.
        var visited := MarkVisited(sources);
        for i := 0 to |sources| {
          if sources[i] !in visited {
            assert false;
          }
        }
        r := Ok([]);
      }
      assert r == spec;
    }

    /** `DepthFirstSearch` with `AllowCycle` forced off: whether it throws "Cycle exists". */
    method HasCycle(opt: SearchOptions) returns (r: Result<bool, GraphError>)
      requires Valid() && Traversal.Closed(Adjacency()) && SourcesKnown(opt)
      ensures var spec := SearchResult(opt.(AllowCycle := Some(false)));
        r == (if spec.Ok? then Ok(false) else if spec.error.CycleExists? then Ok(true) else Err(spec.error))
      ensures opt.Sources.None? && opt.IncludeSources != Some(false) && Directedness(opt)
              ==> r == Ok(Traversal.HasCycle(Adjacency()))
    {
      var search := DepthFirstSearch(opt.(AllowCycle := Some(false)));
      if search.Ok? {
        r := Ok(false);
      } else if search.error.CycleExists? {
        r := Ok(true);
      } else {
        r := Err(search.error);
      }
      if opt.Sources.None? && opt.IncludeSources != Some(false) && Directedness(opt) {
        ghost var adj := Adjacency();
        assert Traversal.CoversAll(adj, Order);
        CycleSearchOver(adj, Order, opt.(AllowCycle := Some(false)));
      }
    }

    /**
     * The reversed search list, with `TopologicalSorting` on unless the
     * options turn it off. With `AllowCycle` at its default it never reports
     * a cycle; on an acyclic directed graph it lists every vertex once, each
     * before the heads of its outgoing edges.
     */
    method TopologicalSort(opt: SearchOptions) returns (r: Result<seq<string>, GraphError>)
      requires Valid() && Traversal.Closed(Adjacency()) && SourcesKnown(opt)
      ensures var spec := SearchResult(opt.(TopologicalSorting := Some(opt.TopologicalSorting.GetOr(true))));
        r == (if spec.Ok? then Ok(Traversal.Reverse(spec.value)) else Err(spec.error))
      ensures opt.AllowCycle.GetOr(true) ==> !(r.Err? && r.error.CycleExists?)
      ensures opt.AllowCycle.GetOr(true) && opt.TopologicalSorting.GetOr(true) ==>
        (r.Err? <==> !Directedness(opt)) && (r.Err? ==> r.error == NotMeaningful)
      ensures opt.Sources.None? && opt.IncludeSources != Some(false) && Directedness(opt)
              && !Traversal.HasCycle(Adjacency())
              ==> && r.Ok?
                  && Traversal.TopologicallyOrdered(Adjacency(), r.value)
                  && Traversal.NoDuplicates(r.value)
                  && (forall id :: id in r.value <==> id in Vertices)
    {
      var topt := opt.(TopologicalSorting := Some(opt.TopologicalSorting.GetOr(true)));
      var search := DepthFirstSearch(topt);
      if search.Ok? {
        r := Ok(Traversal.Reverse(search.value));
      } else {
        r := Err(search.error);
      }
      if opt.Sources.None? && opt.IncludeSources != Some(false) && Directedness(opt) && !Traversal.HasCycle(Adjacency()) {
        SortedSearch(topt);
      }
    }

    /** A topological search from every vertex of an acyclic directed graph, reversed, is a topological order of all of them. */
    lemma SortedSearch(opt: SearchOptions)
      requires Valid() && Traversal.Closed(Adjacency()) && SourcesKnown(opt)
      requires opt.Sources.None? && opt.IncludeSources != Some(false)
      requires Directedness(opt) && !Traversal.HasCycle(Adjacency())
      ensures SearchResult(opt).Ok?
      ensures var order := Traversal.Reverse(SearchResult(opt).value);
        && Traversal.TopologicallyOrdered(Adjacency(), order)
        && Traversal.NoDuplicates(order)
        && (forall id :: id in order <==> id in Vertices)
    {
      var adj := Adjacency();
      assert Traversal.CoversAll(adj, Order);
      Traversal.ReversedSearchIsTopologicalOrder(adj, opt.AllowCycle.GetOr(true), Order);
    }

    /** A directed edge stored at its tail makes its head adjacent to the tail. */
    lemma DirectedEdgeIsAdjacency(u: string, k: nat)
      requires Valid() && u in Vertices && k < |Vertices[u].Edges|
      requires Vertices[u].Edges[k].Directed && Vertices[u].Edges[k].From.ID == u
      ensures Vertices[u].Edges[k].To.ID in Adjacency()[u]
    {
      var v := Vertices[u];
      var e := v.Edges[k];
      AdjacentOfMembers(v, v.Edges);
      assert e in v.Edges && Leaves(e, v) && Successor(e, v) == e.To;
      assert e.To in AdjacentOf(v, v.Edges);
      var adjacent := AdjacentOf(v, v.Edges);
      var m :| 0 <= m < |adjacent| && adjacent[m] == e.To;
      assert Ids(adjacent)[m] == e.To.ID;
    }

    /** In a topological order of the adjacency, every directed edge's tail precedes its head. */
    lemma TopologicalOrderRespectsEdges(order: seq<string>, i: nat, j: nat, k: nat)
      requires Valid() && Traversal.TopologicallyOrdered(Adjacency(), order)
      requires i < |order| && j < |order| && order[i] in Vertices && k < |Vertices[order[i]].Edges|
      requires Vertices[order[i]].Edges[k].Directed
      requires Vertices[order[i]].Edges[k].From.ID == order[i] && Vertices[order[i]].Edges[k].To.ID == order[j]
      ensures i < j
    {
      DirectedEdgeIsAdjacency(order[i], k);
    }

    // ----- Leaves, roots and sorting -----

    /** The vertices of `ids` that pass the leaf test, in order. */
    ghost function LeavesAmong(ids: seq<string>, directed: bool): seq<Vertex>
      reads this, Vertices.Values
      requires forall j :: 0 <= j < |ids| ==> ids[j] in Vertices
    {
      if ids == [] then []
      else
        var v := Vertices[ids[|ids| - 1]];
        LeavesAmong(ids[..|ids| - 1], directed) + (if IsLeaf(v, directed) then [v] else [])
    }

    /** The test `GetLeaves` applies to each vertex. */
    static method LeafTest(v: Vertex, directed: bool) returns (leaf: bool)
      ensures leaf == IsLeaf(v, directed)
    {
      var outdegree := v.Outdegree();
      var indegree := v.Indegree();
      if directed {
        leaf := outdegree == 0 && indegree >= 1;
      } else {
        leaf := indegree == 1;
      }
    }

    /**
     * With some directed edge: the vertices with out-degree 0 and in-degree
     * at least 1; otherwise the vertices with exactly one incident edge.
     */
    method GetLeaves() returns (leaves: seq<Vertex>)
      requires Valid()
      ensures leaves == LeavesAmong(Order, AnyDirected())
      ensures forall v :: v in leaves <==> v in Vertices.Values && IsLeaf(v, AnyDirected())
    {
      var directed := IsDirected();
      leaves := CollectLeaves(directed);
      LeavesAmongMembers(Order, directed);
    }

    /** The loop of `getLeaves`, once it knows whether some edge is directed. */
    method CollectLeaves(directed: bool) returns (leaves: seq<Vertex>)
      requires Valid()
      ensures leaves == LeavesAmong(Order, directed)
    {
      leaves := [];
      for i := 0 to |Order|
        invariant leaves == LeavesAmong(Order[..i], directed)
      {
        var v := Vertices[Order[i]];
        var leaf := LeafTest(v, directed);
        LeavesStep(i, directed);
        if leaf {
          leaves := leaves + [v];
        }
      }
      assert Order[..|Order|] == Order;
    }

    /** One more vertex adds itself to the leaves when it is one. */
    lemma LeavesStep(i: int, directed: bool)
      requires Valid() && 0 <= i < |Order|
      ensures var v := Vertices[Order[i]];
        LeavesAmong(Order[..i + 1], directed) == LeavesAmong(Order[..i], directed) + (if IsLeaf(v, directed) then [v] else [])
    {
      assert Order[..i + 1][..i] == Order[..i];
    }

    lemma {:induction false} LeavesAmongMembers(ids: seq<string>, directed: bool)
      requires Valid() && forall j :: 0 <= j < |ids| ==> ids[j] in Vertices
      ensures forall v :: v in LeavesAmong(ids, directed) <==> (exists j :: 0 <= j < |ids| && v == Vertices[ids[j]]) && IsLeaf(v, directed)
      ensures ids == Order ==> forall v :: v in LeavesAmong(ids, directed) <==> v in Vertices.Values && IsLeaf(v, directed)
    {
      if ids != [] {
        LeavesAmongMembers(ids[..|ids| - 1], directed);
        assert forall j :: 0 <= j < |ids| - 1 ==> ids[..|ids| - 1][j] == ids[j];
      }
      if ids == Order {
        forall v | v in Vertices.Values
          ensures exists j :: 0 <= j < |ids| && v == Vertices[ids[j]]
        {
          var id :| id in Vertices && Vertices[id] == v;
          var j :| 0 <= j < |Order| && Order[j] == id;
        }
      }
    }

    /** The vertices with in-degree 0, in order. */
    ghost function RootsAmong(ids: seq<string>): seq<Vertex>
      reads this, Vertices.Values
      requires forall j :: 0 <= j < |ids| ==> ids[j] in Vertices
    {
      if ids == [] then []
      else
        var v := Vertices[ids[|ids| - 1]];
        RootsAmong(ids[..|ids| - 1]) + (if IsRoot(v) then [v] else [])
    }

    /** Throws on a graph without directed edges; otherwise the vertices with in-degree 0. */
    method GetRoots() returns (r: Result<seq<Vertex>, GraphError>)
      requires Valid()
      ensures !AnyDirected() ==> r == Err(NotMeaningful)
      ensures AnyDirected() ==> r == Ok(RootsAmong(Order))
      ensures r.Ok? ==> forall k :: 0 <= k < |r.value| ==> r.value[k] in Vertices.Values && IndegreeOf(r.value[k], r.value[k].Edges) == 0
    {
      var directed := IsDirected();
      if !directed {
        return Err(NotMeaningful);
      }
      var roots := CollectRoots();
      RootsAmongMembers(Order);
      return Ok(roots);
    }

    /** The test `GetRoots` applies to each vertex. */
    static method RootTest(v: Vertex) returns (root: bool)
      ensures root <==> IsRoot(v)
    {
      var indegree := v.Indegree();
      root := indegree == 0;
    }

    /** The loop of `GetRoots`: the vertices with in-degree 0, in order. */
    method CollectRoots() returns (roots: seq<Vertex>)
      requires Valid()
      ensures roots == RootsAmong(Order)
    {
      roots := [];
      for i := 0 to |Order|
        invariant roots == RootsAmong(Order[..i])
      {
        var v := Vertices[Order[i]];
        var root := RootTest(v);
        RootsStep(i);
        if root {
          roots := roots + [v];
        }
      }
      assert Order[..|Order|] == Order;
    }

    /** One more vertex adds itself to the roots when nothing leads to it. */
    lemma RootsStep(i: int)
      requires Valid() && 0 <= i < |Order|
      ensures var v := Vertices[Order[i]];
        RootsAmong(Order[..i + 1]) == RootsAmong(Order[..i]) + (if IsRoot(v) then [v] else [])
    {
      assert Order[..i + 1][..i] == Order[..i];
    }

    /** Every root found is a vertex of the graph with in-degree 0. */
    lemma {:induction false} RootsAmongMembers(ids: seq<string>)
      requires forall j :: 0 <= j < |ids| ==> ids[j] in Vertices
      ensures forall k :: 0 <= k < |RootsAmong(ids)| ==>
        RootsAmong(ids)[k] in Vertices.Values && IndegreeOf(RootsAmong(ids)[k], RootsAmong(ids)[k].Edges) == 0
    {
      if ids != [] {
        RootsAmongMembers(ids[..|ids| - 1]);
      }
    }

    /** Sorts every vertex's edge list by `SortIdentifier`. */
    method Sort()
      requires Valid()
      modifies Vertices.Values
      ensures Valid()
      ensures forall id :: id in Vertices ==> Vertices[id].Edges == Sorting.SortBy(old(Vertices[id].Edges), SortKey)
    {
      for i := 0 to |Order|
        invariant forall j :: 0 <= j < i ==> Vertices[Order[j]].Edges == Sorting.SortBy(old(Vertices[Order[j]].Edges), SortKey)
        invariant forall j :: i <= j < |Order| ==> Vertices[Order[j]].Edges == old(Vertices[Order[j]].Edges)
      {
        var v := Vertices[Order[i]];
        Apart(i);
        v.Sort();
      }
      assert forall id :: id in Vertices ==> exists j :: 0 <= j < |Order| && Order[j] == id;
    }

    /** The vertex at position `i` of the order is at no other position. */
    lemma Apart(i: int)
      requires Valid() && 0 <= i < |Order|
      ensures forall j :: 0 <= j < |Order| && j != i ==> Vertices[Order[j]] != Vertices[Order[i]]
    {
      forall j | 0 <= j < |Order| && j != i
        ensures Vertices[Order[j]] != Vertices[Order[i]]
      {
        assert Vertices[Order[j]].ID == Order[j] != Order[i] == Vertices[Order[i]].ID;
      }
    }

    // ----- Fragments -----

    /** The vertices stored under `ids`, in order. */
    ghost function InOrder(ids: seq<string>): (vs: seq<Vertex>)
      reads this
      requires forall j :: 0 <= j < |ids| ==> ids[j] in Vertices
      ensures |vs| == |ids| && forall j :: 0 <= j < |ids| ==> vs[j] == Vertices[ids[j]]
    {
      if ids == [] then [] else InOrder(ids[..|ids| - 1]) + [Vertices[ids[|ids| - 1]]]
    }

    /**
     * `_prune()`: collects, vertex by vertex, the edges whose far end is not
     * a vertex of the graph, then removes each of them from every vertex.
     * Afterwards every edge left leads to a vertex of the graph.
     */
    method Prune()
      requires Valid()
      modifies Vertices.Values
      ensures Valid()
      ensures forall id :: id in Vertices ==>
        Vertices[id].Edges == WithoutAll(old(Vertices[id].Edges), old(DanglingIn(InOrder(Order), Vertices.Keys)))
      ensures forall id, k :: id in Vertices && 0 <= k < |Vertices[id].Edges| ==>
        Vertices[id].Edges[k].GetOppositeVertexFrom(Vertices[id]).ID in Vertices
    {
      ghost var dangling := DanglingIn(InOrder(Order), Vertices.Keys);
      var doomed := CollectDangling();
      KeptLeadInside(doomed);
      RemoveFromAll(doomed);
      assert Vertices == old(Vertices) && Order == old(Order);
      assert doomed == dangling;
      forall id, k | id in Vertices && 0 <= k < |Vertices[id].Edges|
        ensures Vertices[id].Edges[k].GetOppositeVertexFrom(Vertices[id]).ID in Vertices
      {
        var e := Vertices[id].Edges[k];
        WithoutAllMembers(old(Vertices[id].Edges), doomed);
        assert e in old(Vertices[id].Edges) && e !in doomed;
      }
    }

    /** Every stored edge that is not among the dangling ones leads to a vertex of the graph. */
    lemma KeptLeadInside(doomed: seq<Edge>)
      requires Valid() && doomed == DanglingIn(InOrder(Order), Vertices.Keys)
      ensures forall id, e :: id in Vertices && e in Vertices[id].Edges && e !in doomed ==>
        e.GetOppositeVertexFrom(Vertices[id]).ID in Vertices
    {
      var vs := InOrder(Order);
      DanglingInMembers(vs, Vertices.Keys);
      forall id, e | id in Vertices && e in Vertices[id].Edges && e !in doomed
        ensures e.GetOppositeVertexFrom(Vertices[id]).ID in Vertices
      {
        var j :| 0 <= j < |Order| && Order[j] == id;
        assert vs[j] == Vertices[id];
      }
    }

    /** The first loop of `_prune`: the dangling edges of every vertex, in insertion order. */
    method CollectDangling() returns (doomed: seq<Edge>)
      requires Valid()
      ensures doomed == DanglingIn(InOrder(Order), Vertices.Keys)
    {
      ghost var vs := InOrder(Order);
      doomed := [];
      for i := 0 to |Order|
        invariant doomed == DanglingIn(vs[..i], Vertices.Keys)
      {
        var v := Vertices[Order[i]];
        assert v == vs[i];
        var mine := DanglingOf(v);
        DanglingInStep(vs, i, Vertices.Keys);
        doomed := doomed + mine;
      }
      assert vs[..|Order|] == vs;
    }

    /** The inner loop of the first loop of `_prune`, over the edges of `v`. */
    method DanglingOf(v: Vertex) returns (mine: seq<Edge>)
      ensures mine == Dangling(v, v.Edges, Vertices.Keys)
    {
      mine := [];
      for k := 0 to |v.Edges|
        invariant mine == Dangling(v, v.Edges[..k], Vertices.Keys)
      {
        if !HasVertex(v.Edges[k].GetOppositeVertexFrom(v)) {
          mine := mine + [v.Edges[k]];
        }
        assert v.Edges[..k + 1][..k] == v.Edges[..k];
      }
      assert v.Edges[..|v.Edges|] == v.Edges;
    }

    /** The second loop of `_prune`: every vertex drops each of `doomed` from its own list. */
    method RemoveFromAll(doomed: seq<Edge>)
      requires Valid()
      modifies Vertices.Values
      ensures forall id :: id in Vertices ==> Vertices[id].Edges == WithoutAll(old(Vertices[id].Edges), doomed)
    {
      for i := 0 to |Order|
        invariant forall j :: 0 <= j < i ==> Vertices[Order[j]].Edges == WithoutAll(old(Vertices[Order[j]].Edges), doomed)
        invariant forall j :: i <= j < |Order| ==> Vertices[Order[j]].Edges == old(Vertices[Order[j]].Edges)
      {
        RemoveEach(Vertices[Order[i]], doomed);
      }
      assert forall id :: id in Vertices ==> exists j :: 0 <= j < |Order| && Order[j] == id;
    }

    /**
     * `FragmentFrom(vertices)`: a new graph holding a copy of each given
     * vertex, in order, pruned of the edges that lead outside it. A repeated
     * ID makes `AddVertex` throw. The copies are new objects, so the given
     * vertices are left as they were.
     */
    static method FragmentFrom(vertices: seq<Vertex>) returns (r: Result<Graph, GraphError>)
      ensures r.Err? <==> !Traversal.NoDuplicates(Ids(vertices))
      ensures r.Err? ==> exists i :: 0 <= i < |vertices| && r.error == AlreadyExists(vertices[i].ID)
                          && vertices[i].ID in Ids(vertices[..i]) && Traversal.NoDuplicates(Ids(vertices[..i]))
      ensures r.Ok? ==> fresh(r.value) && r.value.Valid() && r.value.Order == Ids(vertices)
      ensures r.Ok? ==> forall j :: 0 <= j < |vertices| ==>
        var copy := r.value.Vertices[vertices[j].ID];
        fresh(copy) && copy.Edges == WithoutAll(old(vertices[j].Edges), old(DanglingIn(vertices, set i | 0 <= i < |vertices| :: vertices[i].ID)))
    {
      ghost var doomed := DanglingIn(vertices, set i | 0 <= i < |vertices| :: vertices[i].ID);
      var copied, copies := CopyAll(vertices);
      if copied.Err? {
        return copied;
      }
      var g := copied.value;
      g.CopiesDangleAlike(vertices, copies);
      assert DanglingIn(vertices, g.Vertices.Keys) == doomed;
      PruneCopies(g, vertices, copies, doomed);
      return Ok(g);
    }

    /** The pruning step of `FragmentFrom`, on the graph of copies. */
    static method PruneCopies(g: Graph, ghost vertices: seq<Vertex>, ghost copies: seq<Vertex>, ghost doomed: seq<Edge>)
      requires g.Copies(vertices, copies) && DanglingIn(vertices, g.Vertices.Keys) == doomed
      requires forall j :: 0 <= j < |vertices| ==> copies[j].Edges == vertices[j].Edges
      modifies g.Vertices.Values
      ensures g.Valid() && g.Vertices == old(g.Vertices) && g.Order == old(g.Order)
      ensures forall j :: 0 <= j < |vertices| ==> copies[j].Edges == WithoutAll(old(vertices[j].Edges), doomed)
    {
      g.CopiesDangleAlike(vertices, copies);
      g.Prune();
      forall j | 0 <= j < |vertices|
        ensures copies[j].Edges == WithoutAll(old(vertices[j].Edges), doomed)
      {
        assert g.Vertices[vertices[j].ID] == copies[j];
      }
    }

    /** The copies made by `CopyAll` have the dangling edges of the vertices they copy. */
    lemma CopiesDangleAlike(vertices: seq<Vertex>, copies: seq<Vertex>)
      requires Copies(vertices, copies)
      requires forall j :: 0 <= j < |vertices| ==> copies[j].Edges == vertices[j].Edges
      ensures Vertices.Keys == set i | 0 <= i < |vertices| :: vertices[i].ID
      ensures DanglingIn(InOrder(Order), Vertices.Keys) == DanglingIn(vertices, Vertices.Keys)
    {
      var keys := set i | 0 <= i < |vertices| :: vertices[i].ID;
      forall id | id in keys
        ensures id in Vertices
      {
        var i :| 0 <= i < |vertices| && vertices[i].ID == id;
        assert Ids(vertices)[i] == id;
      }
      assert InOrder(Order) == copies;
      DanglingInSameShape(copies, vertices, keys);
    }

    /** The loop of `FragmentFrom` that adds a new copy of each vertex. */
    static method CopyAll(vertices: seq<Vertex>) returns (r: Result<Graph, GraphError>, ghost copies: seq<Vertex>)
      ensures r.Err? <==> !Traversal.NoDuplicates(Ids(vertices))
      ensures r.Err? ==> exists i :: 0 <= i < |vertices| && r.error == AlreadyExists(vertices[i].ID)
                          && vertices[i].ID in Ids(vertices[..i]) && Traversal.NoDuplicates(Ids(vertices[..i]))
      ensures r.Ok? ==> fresh(r.value) && r.value.Copies(vertices, copies)
      ensures r.Ok? ==> forall j :: 0 <= j < |vertices| ==> copies[j].Edges == old(vertices[j].Edges) && fresh(copies[j])
    {
      var g := new Graph();
      copies := [];
      for i := 0 to |vertices|
        invariant fresh(g) && g.Copies(vertices[..i], copies)
        invariant |copies| == i && forall j :: 0 <= j < i ==> fresh(copies[j])
        invariant forall j :: 0 <= j < i ==> copies[j].Edges == vertices[j].Edges
      {
        var added, copy := CopyStep(g, vertices, i, copies);
        if added.Fail? {
          DuplicateFound(vertices, i);
          return Err(added.error), copies;
        }
        copies := copies + [copy];
      }
      assert vertices[..|vertices|] == vertices;
      return Ok(g), copies;
    }

    /**
     * The graph holds exactly `copies`, new objects, stored under the IDs
     * of `vs` in that order.
     */
    ghost predicate Copies(vs: seq<Vertex>, copies: seq<Vertex>)
      reads this
    {
      && Valid() && Order == Ids(vs) && |copies| == |vs|
      && (forall j :: 0 <= j < |vs| ==> copies[j].ID == vs[j].ID && Vertices[vs[j].ID] == copies[j])
    }

    /** One step of `CopyAll`: a new copy of vertex `i`, added to `g`. */
    static method CopyStep(g: Graph, vs: seq<Vertex>, i: int, ghost copies: seq<Vertex>)
      returns (r: Outcome<GraphError>, copy: Vertex)
      requires 0 <= i < |vs| && g.Copies(vs[..i], copies)
      requires forall j :: 0 <= j < i ==> copies[j].Edges == vs[j].Edges
      modifies g
      ensures fresh(copy) && Traversal.NoDuplicates(Ids(vs[..i]))
      ensures forall j :: 0 <= j < i + 1 ==> (copies + [copy])[j].Edges == vs[j].Edges
      ensures vs[i].ID in Ids(vs[..i]) ==> r == Fail(AlreadyExists(vs[i].ID))
      ensures vs[i].ID !in Ids(vs[..i]) ==> r == Pass && g.Copies(vs[..i + 1], copies + [copy])
    {
      copy := new Vertex(Some(vs[i].ID), Some(vs[i].Edges), "");
      r := g.AddCopy(vs, i, copies, copy);
    }

    /** Adding the copy of vertex `i`. */
    method AddCopy(ghost vs: seq<Vertex>, ghost i: int, ghost copies: seq<Vertex>, copy: Vertex) returns (r: Outcome<GraphError>)
      requires 0 <= i < |vs| && Copies(vs[..i], copies) && copy.ID == vs[i].ID
      modifies this
      ensures copy.ID in Ids(vs[..i]) ==> r == Fail(AlreadyExists(copy.ID))
      ensures copy.ID !in Ids(vs[..i]) ==> r == Pass && Copies(vs[..i + 1], copies + [copy])
    {
      r := AddVertex(copy);
      assert vs[..i + 1] == vs[..i] + [vs[i]];
    }

    // ----- Serialization -----

    /** The records of the edges stored at the vertices `ids`, vertex by vertex. */
    ghost function RecordsAt(ids: seq<string>): seq<EdgeRecord>
      reads this, Vertices.Values
      requires forall j :: 0 <= j < |ids| ==> ids[j] in Vertices
    {
      if ids == [] then [] else RecordsAt(ids[..|ids| - 1]) + Records(Vertices[ids[|ids| - 1]].Edges)
    }

    /** Some vertex of the graph stores an edge whose record is `x`. */
    ghost predicate StoresRecord(x: EdgeRecord)
      reads this, Vertices.Values
    {
      exists id, k :: id in Vertices && 0 <= k < |Vertices[id].Edges| && Vertices[id].Edges[k].Serialize() == x
    }

    /** Vertex `ids[j]` stores, at position `k`, an edge whose record is `x`. */
    ghost predicate RecordAt(ids: seq<string>, j: int, k: int, x: EdgeRecord)
      reads this, Vertices.Values
    {
      0 <= j < |ids| && ids[j] in Vertices && 0 <= k < |Vertices[ids[j]].Edges| && Vertices[ids[j]].Edges[k].Serialize() == x
    }

    lemma {:induction false} RecordsAtMembers(ids: seq<string>, x: EdgeRecord)
      requires forall j :: 0 <= j < |ids| ==> ids[j] in Vertices
      ensures x in RecordsAt(ids) <==> exists j, k :: RecordAt(ids, j, k, x)
    {
      if ids != [] {
        var n := |ids| - 1;
        RecordsAtMembers(ids[..n], x);
        var rs := Records(Vertices[ids[n]].Edges);
        if x in rs {
          var k :| 0 <= k < |rs| && rs[k] == x;
          assert RecordAt(ids, n, k, x);
        }
        if x in RecordsAt(ids[..n]) {
          var j, k :| RecordAt(ids[..n], j, k, x);
          assert ids[j] == ids[..n][j];
          assert RecordAt(ids, j, k, x);
        }
        if exists j, k :: RecordAt(ids, j, k, x) {
          var j, k :| RecordAt(ids, j, k, x);
          if j < n {
            assert ids[..n][j] == ids[j];
            assert RecordAt(ids[..n], j, k, x);
          } else {
            assert rs[k] == x;
          }
        }
      }
    }

    /** In a well-formed graph, walking `Order` meets the record of every stored edge and nothing else. */
    lemma RecordsAtOrder(x: EdgeRecord)
      requires Valid()
      ensures x in RecordsAt(Order) <==> StoresRecord(x)
    {
      RecordsAtMembers(Order, x);
      if StoresRecord(x) {
        var id, k :| id in Vertices && 0 <= k < |Vertices[id].Edges| && Vertices[id].Edges[k].Serialize() == x;
        var j :| 0 <= j < |Order| && Order[j] == id;
        assert RecordAt(Order, j, k, x);
      }
    }

    /**
     * `Serialize()`: the IDs of the vertices, sorted, and the records of all
     * stored edges with structural duplicates dropped (an edge between two
     * vertices is stored at both and recorded once).
     */
    method Serialize() returns (out: SerializedGraph)
      requires Valid()
      ensures multiset(out.Vertices) == multiset(Order) && Sorting.SortedBy(out.Vertices, Sorting.Itself)
      ensures out.Edges == Unique(RecordsAt(Order))
      ensures forall x :: x in out.Edges <==> StoresRecord(x)
      ensures forall i, j :: 0 <= i < j < |out.Edges| ==> out.Edges[i] != out.Edges[j]
    {
      var ids: seq<string> := [];
      var records: seq<EdgeRecord> := [];
      for i := 0 to |Order|
        invariant ids == Order[..i]
        invariant records == RecordsAt(Order[..i])
      {
        var v := Vertices[Order[i]];
        ids := ids + [v.ID];
        var mine := RecordsOf(v);
        assert Order[..i + 1][..i] == Order[..i];
        records := records + mine;
      }
      assert Order[..|Order|] == Order;
      Sorting.SortByCorrect(ids, Sorting.Itself);
      out := SerializedGraph(Sorting.SortBy(ids, Sorting.Itself), Unique(records));
      forall x | true
        ensures x in out.Edges <==> StoresRecord(x)
      {
        RecordsAtOrder(x);
      }
    }

    /** The inner loop of `Serialize`: the records of `v`'s edges, in order. */
    static method RecordsOf(v: Vertex) returns (records: seq<EdgeRecord>)
      ensures records == Records(v.Edges)
    {
      records := [];
      for k := 0 to |v.Edges|
        invariant records == Records(v.Edges[..k])
      {
        assert v.Edges[..k + 1][..k] == v.Edges[..k];
        records := records + [v.Edges[k].Serialize()];
      }
      assert v.Edges[..|v.Edges|] == v.Edges;
    }

    /** Every stored edge joins two vertices of this graph, the very objects stored under its ends' IDs. */
    ghost predicate Linked()
      reads this, Vertices.Values
    {
      forall id, k :: id in Vertices && 0 <= k < |Vertices[id].Edges| ==> EdgeWithin(Vertices, Vertices[id].Edges[k])
    }

    /**
     * `Graph.Deserialize(obj)`: a new vertex per listed ID (a repeated ID
     * replaces the earlier vertex but keeps its place in key order), an
     * edge per record between those vertices, and each edge pushed to every
     * vertex at one of its ends. A record naming an unlisted ID leaves an
     * end undefined, so the `Edge` constructor throws.
     */
    static method Deserialize(obj: SerializedGraph) returns (r: Result<Graph, GraphError>)
      ensures r.Err? <==> exists k :: 0 <= k < |obj.Edges| && !Known(obj.Edges[k], obj.Vertices)
      ensures r.Err? ==> r.error == MissingEndpoint
      ensures r.Ok? ==> fresh(r.value) && r.value.Valid() && r.value.Order == Unique(obj.Vertices) && r.value.Linked()
      ensures r.Ok? ==> forall id :: id in r.value.Vertices ==>
        fresh(r.value.Vertices[id]) && Records(r.value.Vertices[id].Edges) == Touching(obj.Edges, id)
    {
      var vertices, order := NewVertices(obj.Vertices);
      var edges := NewEdges(obj.Edges, vertices);
      if edges.Err? {
        return Err(edges.error);
      }
      Attach(edges.value, vertices, order);
      AttachedRecords(vertices, edges.value, obj.Edges);
      AttachedWithin(vertices, edges.value, obj.Edges);
      var g := new Graph.Of(vertices, order);
      return Ok(g);
    }

    /** After the loops of `Deserialize`, each vertex holds the edges of the records that touch it. */
    static lemma AttachedRecords(vertices: map<string, Vertex>, edges: seq<Edge>, records: seq<EdgeRecord>)
      requires |edges| == |records| && forall k :: 0 <= k < |records| ==> edges[k].Serialize() == records[k]
      requires forall id :: id in vertices ==> vertices[id].Edges == TouchingEdges(edges, id)
      ensures forall id :: id in vertices ==> Records(vertices[id].Edges) == Touching(records, id)
    {
      forall id | id in vertices
        ensures Records(vertices[id].Edges) == Touching(records, id)
      {
        TouchingEdgesRecords(edges, records, id);
      }
    }

    /** After the loops of `Deserialize`, every edge joins vertices of the map. */
    static lemma AttachedWithin(vertices: map<string, Vertex>, edges: seq<Edge>, records: seq<EdgeRecord>)
      requires forall id :: id in vertices ==> vertices[id].ID == id
      requires |edges| == |records| && forall k :: 0 <= k < |records| ==>
        records[k].From in vertices && records[k].To in vertices
        && edges[k].From == vertices[records[k].From] && edges[k].To == vertices[records[k].To]
      requires forall id :: id in vertices ==> vertices[id].Edges == TouchingEdges(edges, id)
      ensures forall id, k :: id in vertices && 0 <= k < |vertices[id].Edges| ==> EdgeWithin(vertices, vertices[id].Edges[k])
    {
      forall id, k | id in vertices && 0 <= k < |vertices[id].Edges|
        ensures EdgeWithin(vertices, vertices[id].Edges[k])
      {
        TouchingWithin(vertices, edges, records, id, k);
      }
    }

    static lemma TouchingWithin(vertices: map<string, Vertex>, edges: seq<Edge>, records: seq<EdgeRecord>, id: string, k: nat)
      requires |edges| == |records| && forall k :: 0 <= k < |records| ==>
        records[k].From in vertices && records[k].To in vertices
        && edges[k].From == vertices[records[k].From] && edges[k].To == vertices[records[k].To]
      requires forall id :: id in vertices ==> vertices[id].ID == id
      requires k < |TouchingEdges(edges, id)|
      ensures EdgeWithin(vertices, TouchingEdges(edges, id)[k])
    {
      var e := TouchingEdges(edges, id)[k];
      var j :| 0 <= j < |edges| && edges[j] == e;
      assert e.From == vertices[records[j].From];
    }

    /** The first loop of `Deserialize`: a new, edgeless vertex per ID, the last one winning. */
    static method NewVertices(ids: seq<string>) returns (vertices: map<string, Vertex>, order: seq<string>)
      ensures order == Unique(ids)
      ensures forall id :: id in vertices <==> id in ids
      ensures forall id :: id in vertices ==> vertices[id].ID == id && fresh(vertices[id]) && vertices[id].Edges == []
    {
      vertices, order := map[], [];
      for i := 0 to |ids|
        invariant order == Unique(ids[..i])
        invariant forall id :: id in vertices <==> id in ids[..i]
        invariant forall id :: id in vertices ==> vertices[id].ID == id && fresh(vertices[id]) && vertices[id].Edges == []
      {
        var v := new Vertex(Some(ids[i]), None, "");
        assert ids[..i + 1][..i] == ids[..i];
        if ids[i] !in vertices {
          order := order + [ids[i]];
        }
        vertices := vertices[ids[i] := v];
      }
      assert ids[..|ids|] == ids;
    }

    /** The second loop of `Deserialize`: an edge per record, between the vertices its IDs name. */
    static method NewEdges(records: seq<EdgeRecord>, vertices: map<string, Vertex>) returns (r: Result<seq<Edge>, GraphError>)
      requires forall id :: id in vertices ==> vertices[id].ID == id
      ensures r.Err? <==> exists k :: 0 <= k < |records| && !(records[k].From in vertices && records[k].To in vertices)
      ensures r.Err? ==> r.error == MissingEndpoint
      ensures r.Ok? ==> |r.value| == |records| && forall k :: 0 <= k < |records| ==>
        r.value[k].Serialize() == records[k] && r.value[k].From == vertices[records[k].From] && r.value[k].To == vertices[records[k].To]
    {
      var edges: seq<Edge> := [];
      for k := 0 to |records|
        invariant |edges| == k
        invariant forall j :: 0 <= j < k ==> records[j].From in vertices && records[j].To in vertices
        invariant forall j :: 0 <= j < k ==>
          edges[j].Serialize() == records[j] && edges[j].From == vertices[records[j].From] && edges[j].To == vertices[records[j].To]
      {
        var x := records[k];
        var from := if x.From in vertices then Some(vertices[x.From]) else None;
        var to := if x.To in vertices then Some(vertices[x.To]) else None;
        var made := NewEdge(from, to, Some(x.Directed), Some(x.Weight));
        if made.Err? {
          return Err(MissingEndpoint);
        }
        edges := edges + [made.value];
      }
      return Ok(edges);
    }

    /** The third loop of `Deserialize`: each edge, in order, goes to every vertex at one of its ends. */
    static method Attach(edges: seq<Edge>, vertices: map<string, Vertex>, order: seq<string>)
      requires forall id :: id in vertices ==> vertices[id].ID == id
      requires Traversal.NoDuplicates(order) && forall id :: id in vertices <==> id in order
      modifies vertices.Values
      ensures forall id :: id in vertices ==> vertices[id].Edges == old(vertices[id].Edges) + TouchingEdges(edges, id)
    {
      for k := 0 to |edges|
        invariant forall id :: id in vertices ==> vertices[id].Edges == old(vertices[id].Edges) + TouchingEdges(edges[..k], id)
      {
        AttachOne(edges[k], vertices, order);
        assert edges[..k + 1][..k] == edges[..k];
      }
      assert edges[..|edges|] == edges;
    }

    /** The inner loop of `Attach`, over the vertices in key order. */
    static method AttachOne(e: Edge, vertices: map<string, Vertex>, order: seq<string>)
      requires forall id :: id in vertices ==> vertices[id].ID == id
      requires Traversal.NoDuplicates(order) && forall id :: id in vertices <==> id in order
      modifies vertices.Values
      ensures forall id :: id in vertices ==>
        vertices[id].Edges == old(vertices[id].Edges) + (if e.From.ID == id || e.To.ID == id then [e] else [])
    {
      for i := 0 to |order|
        invariant forall j :: 0 <= j < i ==>
          vertices[order[j]].Edges == old(vertices[order[j]].Edges) + (if e.From.ID == order[j] || e.To.ID == order[j] then [e] else [])
        invariant forall j :: i <= j < |order| ==> vertices[order[j]].Edges == old(vertices[order[j]].Edges)
      {
        var v := vertices[order[i]];
        if e.From.ID == v.ID || e.To.ID == v.ID {
          v.Edges := v.Edges + [e];
        }
      }
      assert forall id :: id in vertices ==> exists j :: 0 <= j < |order| && order[j] == id;
    }

    /**
     * Serializing a deserialized graph lists each given ID once, sorted, and
     * exactly the given edge records, each once; it fails exactly when a
     * record names an unlisted ID.
     */
    static method RoundTrip(obj: SerializedGraph) returns (r: Result<SerializedGraph, GraphError>)
      ensures r.Err? <==> exists k :: 0 <= k < |obj.Edges| && !Known(obj.Edges[k], obj.Vertices)
      ensures r.Ok? ==> multiset(r.value.Vertices) == multiset(Unique(obj.Vertices)) && Sorting.SortedBy(r.value.Vertices, Sorting.Itself)
      ensures r.Ok? ==> forall x :: x in r.value.Edges <==> x in obj.Edges
      ensures r.Ok? ==> forall i, j :: 0 <= i < j < |r.value.Edges| ==> r.value.Edges[i] != r.value.Edges[j]
    {
      var g := Deserialize(obj);
      if g.Err? {
        return Err(g.error);
      }
      var out := g.value.Serialize();
      g.value.StoresExactly(obj);
      return Ok(out);
    }

    /** A graph built by `Deserialize(obj)` stores the records of `obj` and no others. */
    lemma StoresExactly(obj: SerializedGraph)
      requires Valid() && forall k :: 0 <= k < |obj.Edges| ==> Known(obj.Edges[k], obj.Vertices)
      requires forall id :: id in Vertices <==> id in obj.Vertices
      requires forall id :: id in Vertices ==> Records(Vertices[id].Edges) == Touching(obj.Edges, id)
      ensures forall x :: StoresRecord(x) <==> x in obj.Edges
    {
      forall x | StoresRecord(x)
        ensures x in obj.Edges
      {
        var id, k :| id in Vertices && 0 <= k < |Vertices[id].Edges| && Vertices[id].Edges[k].Serialize() == x;
        assert Records(Vertices[id].Edges)[k] == x;
      }
      forall x | x in obj.Edges
        ensures StoresRecord(x)
      {
        GivenIsStored(obj, x);
      }
    }

    lemma GivenIsStored(obj: SerializedGraph, x: EdgeRecord)
      requires x in obj.Edges && x.From in Vertices
      requires Records(Vertices[x.From].Edges) == Touching(obj.Edges, x.From)
      ensures StoresRecord(x)
    {
      var rs := Records(Vertices[x.From].Edges);
      assert x in rs;
      var k :| 0 <= k < |rs| && rs[k] == x;
      assert Vertices[x.From].Edges[k].Serialize() == x;
    }

    /** Removes each of `targets` in turn from `v`'s own list. */
    static method RemoveEach(v: Vertex, targets: seq<Edge>)
      modifies v
      ensures v.Edges == WithoutAll(old(v.Edges), targets)
    {
      for k := 0 to |targets|
        invariant v.Edges == WithoutAll(old(v.Edges), targets[..k])
      {
        v.RemoveEdgeHere(targets[k]);
        assert targets[..k + 1][..k] == targets[..k];
      }
      assert targets[..|targets|] == targets;
    }
  }
}
