/**
 * The step compiler of graphexec.js: step descriptors (`id`, `upstream`,
 * `downstream`) become a directed graph of vertices, one per step, with an
 * edge from every step to each step that must follow it, and a topological
 * order of their IDs.
 */
module Executor {
  import opened Wrappers
  import opened Graphing
  import opened Graphs
  import Traversal

  // ----- Step references -----

  /** The value of a step's `upstream` or `downstream` field: absent (or neither string nor list), a string, or a list. */
  datatype Refs = Absent | One(name: string) | Many(names: seq<string>)

  /** The rewrite `CompileSteps` applies in place: a single string becomes a one-element list. */
  function Normal(r: Refs): (n: Refs)
    ensures !n.One?
    ensures r.One? ==> n == Many([r.name])
    ensures !r.One? ==> n == r
  {
    if r.One? then Many([r.name]) else r
  }

  /** Rewriting twice is rewriting once, so a step listed twice ends up the same. */
  lemma NormalIdempotent(r: Refs)
    ensures Normal(Normal(r)) == Normal(r)
  {
  }

  /** The names a field lists once rewritten: `_.isArray` holds only for a list. */
  function Names(r: Refs): seq<string> {
    if r.Many? then r.names else []
  }

  /** A step's ID and references as they stand. */
  datatype StepRefs = StepRefs(id: string, up: Refs, down: Refs)

  /** The IDs of the steps, in order. */
  function IdsOf(rs: seq<StepRefs>): (ids: seq<string>)
    ensures |ids| == |rs| && forall i :: 0 <= i < |rs| ==> ids[i] == rs[i].id
  {
    if rs == [] then [] else IdsOf(rs[..|rs| - 1]) + [rs[|rs| - 1].id]
  }

  /** `u -> id` for each name `u` of `us` that is a step ID, in order. */
  function Before(us: seq<string>, id: string, keys: set<string>): (links: seq<(string, string)>)
    ensures forall p :: p in links <==> p.0 in us && p.0 in keys && p.1 == id
  {
    if us == [] then []
    else Before(us[..|us| - 1], id, keys) + (if us[|us| - 1] in keys then [(us[|us| - 1], id)] else [])
  }

  /** `id -> d` for each name `d` of `ds` that is a step ID, in order. */
  function After(id: string, ds: seq<string>, keys: set<string>): (links: seq<(string, string)>)
    ensures forall p :: p in links <==> p.1 in ds && p.1 in keys && p.0 == id
  {
    if ds == [] then []
    else After(id, ds[..|ds| - 1], keys) + (if ds[|ds| - 1] in keys then [(id, ds[|ds| - 1])] else [])
  }

  /** The edges one step adds: from each known upstream, then to each known downstream. */
  function StepLinks(r: StepRefs, keys: set<string>): seq<(string, string)> {
    Before(Names(Normal(r.up)), r.id, keys) + After(r.id, Names(Normal(r.down)), keys)
  }

  /** The edges the steps add, in the order the compiler adds them. */
  function Links(rs: seq<StepRefs>, keys: set<string>): seq<(string, string)> {
    if rs == [] then [] else Links(rs[..|rs| - 1], keys) + StepLinks(rs[|rs| - 1], keys)
  }

  /** Step `r` is `s` and names `u` upstream, or is `u` and names `s` downstream. */
  predicate StepRefers(r: StepRefs, u: string, s: string) {
    (r.id == s && u in Names(Normal(r.up))) || (r.id == u && s in Names(Normal(r.down)))
  }

  /** Some step says that `u` must run before `s`. */
  ghost predicate Refers(rs: seq<StepRefs>, u: string, s: string) {
    exists i :: 0 <= i < |rs| && StepRefers(rs[i], u, s)
  }

  /** The compiler links exactly the pairs of step IDs one step's references name. */
  lemma {:induction false} LinksMembers(rs: seq<StepRefs>, keys: set<string>)
    requires forall i :: 0 <= i < |rs| ==> rs[i].id in keys
    ensures forall u, s :: (u, s) in Links(rs, keys) <==> u in keys && s in keys && Refers(rs, u, s)
  {
    if rs != [] {
      var n := |rs| - 1;
      LinksMembers(rs[..n], keys);
      forall u, s
        ensures (u, s) in Links(rs, keys) <==> u in keys && s in keys && Refers(rs, u, s)
      {
        RefersStep(rs, u, s);
        StepLinksMembers(rs[n], keys, u, s);
      }
    }
  }

  /** One more step refers `u` to `s` iff an earlier one did or it does. */
  lemma RefersStep(rs: seq<StepRefs>, u: string, s: string)
    requires rs != []
    ensures Refers(rs, u, s) <==> Refers(rs[..|rs| - 1], u, s) || StepRefers(rs[|rs| - 1], u, s)
  {
    var n := |rs| - 1;
    if Refers(rs, u, s) && !StepRefers(rs[n], u, s) {
      var i :| 0 <= i < |rs| && StepRefers(rs[i], u, s);
      assert rs[..n][i] == rs[i];
    }
    if Refers(rs[..n], u, s) {
      var i :| 0 <= i < n && StepRefers(rs[..n][i], u, s);
      assert rs[..n][i] == rs[i];
    }
  }

  /** One step links exactly the pairs of known IDs it refers. */
  lemma StepLinksMembers(r: StepRefs, keys: set<string>, u: string, s: string)
    requires r.id in keys
    ensures (u, s) in StepLinks(r, keys) <==> u in keys && s in keys && StepRefers(r, u, s)
  {
  }

  /** The step-level dependency graph: each step ID with the IDs linked after it. */
  function StepGraph(rs: seq<StepRefs>): Traversal.Adj {
    var keys := set i | 0 <= i < |rs| :: rs[i].id;
    map id | id in keys :: Targets(Links(rs, keys), id)
  }

  /** The heads of the links whose tail is `u`, in order. */
  function Targets(links: seq<(string, string)>, u: string): (r: seq<string>)
    ensures forall s :: s in r <==> (u, s) in links
  {
    if links == [] then []
    else Targets(links[..|links| - 1], u) + (if links[|links| - 1].0 == u then [links[|links| - 1].1] else [])
  }

  // ----- The built graph -----

  /** The edge list of every vertex of the map. */
  ghost function ListsOf(vertices: map<string, Vertex>): (lists: map<string, seq<Edge>>)
    reads vertices.Values
    ensures lists.Keys == vertices.Keys && forall x :: x in vertices ==> lists[x] == vertices[x].Edges
  {
    map x | x in vertices :: vertices[x].Edges
  }

  /** The edge the compiler adds for the link `(u, s)`, with `SetAllDirected(directed)` applied. */
  function LinkEdge(vertices: map<string, Vertex>, u: string, s: string, directed: bool): Edge
    requires u in vertices && s in vertices
  {
    Edge(vertices[u], vertices[s], directed, 1)
  }

  /** `e` is the edge of one of `links` and touches `x`. */
  predicate EdgeOfLink(vertices: map<string, Vertex>, links: seq<(string, string)>, directed: bool, x: string, e: Edge) {
    && e.From.ID in vertices && e.To.ID in vertices && e == LinkEdge(vertices, e.From.ID, e.To.ID, directed)
    && (e.From.ID, e.To.ID) in links && (e.From.ID == x || e.To.ID == x)
  }

  /** The edge of the link `p` is stored at both its ends. */
  predicate StoredAtBothEnds(vertices: map<string, Vertex>, lists: map<string, seq<Edge>>, directed: bool, p: (string, string)) {
    && p.0 in vertices && p.1 in vertices && p.0 in lists && p.1 in lists
    && LinkEdge(vertices, p.0, p.1, directed) in lists[p.0] && LinkEdge(vertices, p.0, p.1, directed) in lists[p.1]
  }

  /**
   * The edge lists `lists` of the vertices `vertices` hold exactly the edges
   * of `links`: every stored edge is the edge of a link and touches the
   * vertex holding it, and the edge of every link is stored at both ends.
   */
  predicate Wired(vertices: map<string, Vertex>, lists: map<string, seq<Edge>>, links: seq<(string, string)>, directed: bool) {
    lists.Keys == vertices.Keys && OnlyLinks(vertices, lists, links, directed) && AllLinks(vertices, lists, links, directed)
  }

  /** Every stored edge is the edge of a link and touches the vertex holding it. */
  predicate OnlyLinks(vertices: map<string, Vertex>, lists: map<string, seq<Edge>>, links: seq<(string, string)>, directed: bool) {
    forall x, k :: x in lists && 0 <= k < |lists[x]| ==> EdgeOfLink(vertices, links, directed, x, lists[x][k])
  }

  /** The edge of every link is stored at both its ends. */
  predicate AllLinks(vertices: map<string, Vertex>, lists: map<string, seq<Edge>>, links: seq<(string, string)>, directed: bool) {
    forall p :: p in links ==> StoredAtBothEnds(vertices, lists, directed, p)
  }

  /** `redirected` is `lists` after `SetAllDirected(true)`. */
  predicate Redirected(lists: map<string, seq<Edge>>, redirected: map<string, seq<Edge>>) {
    redirected.Keys == lists.Keys && forall x :: x in lists ==> redirected[x] == WithDirection(lists[x], true)
  }

  /** Setting every stored edge's `Directed` to true keeps the lists wired, now with directed edges. */
  lemma Redirect(vertices: map<string, Vertex>, lists: map<string, seq<Edge>>, links: seq<(string, string)>, redirected: map<string, seq<Edge>>)
    requires Wired(vertices, lists, links, false)
    requires Redirected(lists, redirected)
    ensures Wired(vertices, redirected, links, true)
  {
    RedirectLinks(vertices, lists, links, redirected);
    RedirectStored(vertices, lists, links, redirected);
  }

  lemma RedirectLinks(vertices: map<string, Vertex>, lists: map<string, seq<Edge>>, links: seq<(string, string)>, redirected: map<string, seq<Edge>>)
    requires AllLinks(vertices, lists, links, false)
    requires Redirected(lists, redirected)
    ensures AllLinks(vertices, redirected, links, true)
  {
    forall p | p in links
      ensures StoredAtBothEnds(vertices, redirected, true, p)
    {
      RedirectLink(vertices, lists, redirected, p);
    }
  }

  lemma RedirectStored(vertices: map<string, Vertex>, lists: map<string, seq<Edge>>, links: seq<(string, string)>, redirected: map<string, seq<Edge>>)
    requires OnlyLinks(vertices, lists, links, false)
    requires Redirected(lists, redirected)
    ensures OnlyLinks(vertices, redirected, links, true)
  {
    forall x, k | x in redirected && 0 <= k < |redirected[x]|
      ensures EdgeOfLink(vertices, links, true, x, redirected[x][k])
    {
      RedirectEdge(vertices, links, lists, redirected, x, k);
    }
  }

  /** The edge of one link, once directed, is still stored at both ends. */
  lemma RedirectLink(vertices: map<string, Vertex>, lists: map<string, seq<Edge>>, redirected: map<string, seq<Edge>>, p: (string, string))
    requires StoredAtBothEnds(vertices, lists, false, p)
    requires Redirected(lists, redirected)
    ensures StoredAtBothEnds(vertices, redirected, true, p)
  {
    var e := LinkEdge(vertices, p.0, p.1, false);
    var i :| 0 <= i < |lists[p.0]| && lists[p.0][i] == e;
    var j :| 0 <= j < |lists[p.1]| && lists[p.1][j] == e;
    assert redirected[p.0][i] == LinkEdge(vertices, p.0, p.1, true);
    assert redirected[p.1][j] == LinkEdge(vertices, p.0, p.1, true);
  }

  /** One stored edge, once directed, is still the directed edge of its link. */
  lemma RedirectEdge(vertices: map<string, Vertex>, links: seq<(string, string)>, lists: map<string, seq<Edge>>, redirected: map<string, seq<Edge>>, x: string, k: int)
    requires x in lists && 0 <= k < |lists[x]| && EdgeOfLink(vertices, links, false, x, lists[x][k])
    requires Redirected(lists, redirected)
    ensures 0 <= k < |redirected[x]| && EdgeOfLink(vertices, links, true, x, redirected[x][k])
  {
    assert redirected[x][k] == lists[x][k].(Directed := true);
  }

  /** With directed wired lists, `s` is adjacent to `u` exactly when the compiler linked `u` to `s`. */
  lemma WiredAdjacent(vertices: map<string, Vertex>, links: seq<(string, string)>, u: string, s: string)
    requires forall x :: x in vertices ==> vertices[x].ID == x
    requires u in vertices && Wired(vertices, ListsOf(vertices), links, true)
    ensures s in Ids(AdjacentOf(vertices[u], vertices[u].Edges)) <==> (u, s) in links
  {
    var v := vertices[u];
    AdjacentOfMembers(v, v.Edges);
    var adjacent := AdjacentOf(v, v.Edges);
    if s in Ids(adjacent) {
      var m :| 0 <= m < |adjacent| && Ids(adjacent)[m] == s;
      assert adjacent[m] in AdjacentOf(v, v.Edges);
      var e :| e in v.Edges && Leaves(e, v) && Successor(e, v) == adjacent[m];
      var k :| 0 <= k < |v.Edges| && v.Edges[k] == e;
      assert ListsOf(vertices)[u][k] == e;
    }
    if (u, s) in links {
      var e := LinkEdge(vertices, u, s, true);
      assert e in ListsOf(vertices)[u];
      assert e in v.Edges && Leaves(e, v) && Successor(e, v) == vertices[s];
      assert vertices[s] in AdjacentOf(v, v.Edges);
      var m :| 0 <= m < |adjacent| && adjacent[m] == vertices[s];
      assert Ids(adjacent)[m] == s;
    }
  }

  /** With directed wired lists, `u` is a precedent of `s` exactly when the compiler linked `u` to `s`. */
  lemma WiredPrecedent(vertices: map<string, Vertex>, links: seq<(string, string)>, u: string, s: string)
    requires forall x :: x in vertices ==> vertices[x].ID == x
    requires s in vertices && Wired(vertices, ListsOf(vertices), links, true)
    ensures u in Ids(PrecedentOf(vertices[s], vertices[s].Edges)) <==> (u, s) in links
  {
    var v := vertices[s];
    PrecedentOfMembers(v, v.Edges);
    var precedent := PrecedentOf(v, v.Edges);
    if u in Ids(precedent) {
      var m :| 0 <= m < |precedent| && Ids(precedent)[m] == u;
      assert precedent[m] in PrecedentOf(v, v.Edges);
      var e :| e in v.Edges && Enters(e, v) && Predecessor(e, v) == precedent[m];
      var k :| 0 <= k < |v.Edges| && v.Edges[k] == e;
      assert ListsOf(vertices)[s][k] == e;
    }
    if (u, s) in links {
      var e := LinkEdge(vertices, u, s, true);
      assert e in ListsOf(vertices)[s];
      assert e in v.Edges && Enters(e, v) && Predecessor(e, v) == vertices[u];
      assert vertices[u] in PrecedentOf(v, v.Edges);
      var m :| 0 <= m < |precedent| && precedent[m] == vertices[u];
      assert Ids(precedent)[m] == u;
    }
  }

  /** Two adjacencies with the same vertices and the same arcs have the same cycles. */
  lemma SameArcsSameCycles(a: Traversal.Adj, b: Traversal.Adj)
    requires a.Keys == b.Keys
    requires forall u, s :: u in a ==> (s in a[u] <==> s in b[u])
    ensures Traversal.HasCycle(a) <==> Traversal.HasCycle(b)
  {
    if Traversal.HasCycle(a) {
      var p :| Traversal.IsCycle(a, p);
      assert Traversal.IsCycle(b, p);
    }
    if Traversal.HasCycle(b) {
      var p :| Traversal.IsCycle(b, p);
      assert Traversal.IsCycle(a, p);
    }
  }

  /** The edge lists once the link `(u, s)` has been added: its edge is appended at both ends (twice on a self-loop). */
  function Grown(lists: map<string, seq<Edge>>, u: string, s: string, e: Edge): (r: map<string, seq<Edge>>)
    ensures r.Keys == lists.Keys
    ensures forall x :: x in lists && x != u && x != s ==> r[x] == lists[x]
  {
    map x | x in lists :: lists[x] + (if x == u && x == s then [e, e] else if x == u || x == s then [e] else [])
  }

  /** Adding the edge of a link keeps the lists wired to the links, now with that link. */
  lemma GrownWired(vertices: map<string, Vertex>, lists: map<string, seq<Edge>>, links: seq<(string, string)>, u: string, s: string)
    requires u in vertices && s in vertices && vertices[u].ID == u && vertices[s].ID == s && Wired(vertices, lists, links, false)
    ensures Wired(vertices, Grown(lists, u, s, LinkEdge(vertices, u, s, false)), links + [(u, s)], false)
  {
    GrownOnlyLinks(vertices, lists, links, u, s);
    GrownAllLinks(vertices, lists, links, u, s);
  }

  lemma GrownOnlyLinks(vertices: map<string, Vertex>, lists: map<string, seq<Edge>>, links: seq<(string, string)>, u: string, s: string)
    requires u in vertices && s in vertices && vertices[u].ID == u && vertices[s].ID == s && OnlyLinks(vertices, lists, links, false)
    ensures OnlyLinks(vertices, Grown(lists, u, s, LinkEdge(vertices, u, s, false)), links + [(u, s)], false)
  {
    var grown := Grown(lists, u, s, LinkEdge(vertices, u, s, false));
    forall x, k | x in grown && 0 <= k < |grown[x]|
      ensures EdgeOfLink(vertices, links + [(u, s)], false, x, grown[x][k])
    {
      if k < |lists[x]| {
        assert grown[x][k] == lists[x][k];
        assert EdgeOfLink(vertices, links, false, x, lists[x][k]);
      } else {
        assert grown[x][k] == LinkEdge(vertices, u, s, false);
      }
    }
  }

  lemma GrownAllLinks(vertices: map<string, Vertex>, lists: map<string, seq<Edge>>, links: seq<(string, string)>, u: string, s: string)
    requires u in vertices && s in vertices && lists.Keys == vertices.Keys && AllLinks(vertices, lists, links, false)
    ensures AllLinks(vertices, Grown(lists, u, s, LinkEdge(vertices, u, s, false)), links + [(u, s)], false)
  {
    var e := LinkEdge(vertices, u, s, false);
    var grown := Grown(lists, u, s, e);
    forall p | p in links + [(u, s)]
      ensures StoredAtBothEnds(vertices, grown, false, p)
    {
      if p in links {
        assert StoredAtBothEnds(vertices, lists, false, p);
        assert lists[p.0] <= grown[p.0] && lists[p.1] <= grown[p.1];
      } else {
        assert e == grown[u][|grown[u]| - 1] && e == grown[s][|grown[s]| - 1];
      }
    }
  }

  // ----- The compiler -----

  /** A step descriptor of a digraph; its reference fields are rewritten in place by the compiler. */
  class Step {
    const Id: string
    const Project: string
    var Upstream: Refs
    var Downstream: Refs

    constructor (id: string, project: string, upstream: Refs, downstream: Refs)
      ensures Id == id && Project == project && Upstream == upstream && Downstream == downstream
    {
      Id, Project, Upstream, Downstream := id, project, upstream, downstream;
    }
  }

  /** The steps as a set of objects: what the compiler may modify. */
  function Objects(list: seq<Step>): set<Step> {
    set i | 0 <= i < |list| :: list[i]
  }

  /** The current ID and references of each step. */
  ghost function RefsOf(list: seq<Step>): (rs: seq<StepRefs>)
    reads list
    ensures |rs| == |list| && forall i :: 0 <= i < |list| ==> rs[i] == StepRefs(list[i].Id, list[i].Upstream, list[i].Downstream)
  {
    if list == [] then [] else
      var n := |list| - 1;
      RefsOf(list[..n]) + [StepRefs(list[n].Id, list[n].Upstream, list[n].Downstream)]
  }

  /** The step IDs as a set: the keys of the compiler's `vertices` object. */
  function IdSet(list: seq<Step>): set<string> {
    set i | 0 <= i < |list| :: list[i].Id
  }

  /** Adds the edge `u -> s` between the vertices of those IDs. */
  method Connect(vertices: map<string, Vertex>, ghost links: seq<(string, string)>, u: string, s: string)
    requires forall x :: x in vertices ==> vertices[x].ID == x
    requires u in vertices && s in vertices && Wired(vertices, ListsOf(vertices), links, false)
    modifies vertices[u], vertices[s]
    ensures Wired(vertices, ListsOf(vertices), links + [(u, s)], false)
  {
    ghost var before := ListsOf(vertices);
    var e := vertices[u].AddEdgeTo(vertices[s], None, None, None, None);
    assert e == LinkEdge(vertices, u, s, false);
    assert ListsOf(vertices) == Grown(before, u, s, e);
    GrownWired(vertices, before, links, u, s);
  }

  /** The upstream loop of one step: an edge `u -> s` for each name `u` that is a step ID. */
  method ConnectUpstream(vertices: map<string, Vertex>, ghost links: seq<(string, string)>, us: seq<string>, s: string)
    returns (ghost grown: seq<(string, string)>)
    requires forall x :: x in vertices ==> vertices[x].ID == x
    requires s in vertices && Wired(vertices, ListsOf(vertices), links, false)
    modifies vertices.Values
    ensures grown == links + Before(us, s, vertices.Keys)
    ensures Wired(vertices, ListsOf(vertices), grown, false)
  {
    grown := links;
    for j := 0 to |us|
      invariant grown == links + Before(us[..j], s, vertices.Keys)
      invariant Wired(vertices, ListsOf(vertices), grown, false)
    {
      assert us[..j + 1][..j] == us[..j];
      if us[j] in vertices {
        Connect(vertices, grown, us[j], s);
        grown := grown + [(us[j], s)];
      }
    }
    assert us[..|us|] == us;
  }

  /** The downstream loop of one step: an edge `u -> d` for each name `d` that is a step ID. */
  method ConnectDownstream(vertices: map<string, Vertex>, ghost links: seq<(string, string)>, u: string, ds: seq<string>)
    returns (ghost grown: seq<(string, string)>)
    requires forall x :: x in vertices ==> vertices[x].ID == x
    requires u in vertices && Wired(vertices, ListsOf(vertices), links, false)
    modifies vertices.Values
    ensures grown == links + After(u, ds, vertices.Keys)
    ensures Wired(vertices, ListsOf(vertices), grown, false)
  {
    grown := links;
    for j := 0 to |ds|
      invariant grown == links + After(u, ds[..j], vertices.Keys)
      invariant Wired(vertices, ListsOf(vertices), grown, false)
    {
      assert ds[..j + 1][..j] == ds[..j];
      if ds[j] in vertices {
        Connect(vertices, grown, u, ds[j]);
        grown := grown + [(u, ds[j])];
      }
    }
    assert ds[..|ds|] == ds;
  }

  /**
   * The second loop of the compiler: rewrites each step's string references
   * into one-element lists and adds the edges they name, step by step.
   */
  method Wire(list: seq<Step>, vertices: map<string, Vertex>) returns (ghost links: seq<(string, string)>)
    requires forall x :: x in vertices ==> vertices[x].ID == x
    requires forall i :: 0 <= i < |list| ==> list[i].Id in vertices
    requires Wired(vertices, ListsOf(vertices), [], false)
    modifies vertices.Values, list
    ensures links == Links(old(RefsOf(list)), vertices.Keys)
    ensures Wired(vertices, ListsOf(vertices), links, false)
    ensures NormalizedFrom(list, old(RefsOf(list)))
  {
    ghost var rs := RefsOf(list);
    assert Rewritten(list, rs, 0);
    links := [];
    for i := 0 to |list|
      invariant links == Links(rs[..i], vertices.Keys)
      invariant Wired(vertices, ListsOf(vertices), links, false)
      invariant Rewritten(list, rs, i)
    {
      links := WireAt(vertices, links, list, rs, i);
    }
    assert rs[..|list|] == rs;
  }

  /**
   * The steps before `i` have had their references rewritten, and the rest
   * rewrite to what they held at first (a step listed twice is rewritten
   * again, to the same value).
   */
  ghost predicate Rewritten(list: seq<Step>, rs: seq<StepRefs>, i: int)
    reads list
  {
    && |rs| == |list| && 0 <= i <= |list|
    && (forall j, k :: 0 <= j < |list| && 0 <= k < |list| && list[j] == list[k] ==> rs[j] == rs[k])
    && (forall j :: 0 <= j < |list| ==> rs[j].id == list[j].Id)
    && (forall j :: 0 <= j < |list| ==> Normal(list[j].Upstream) == Normal(rs[j].up) && Normal(list[j].Downstream) == Normal(rs[j].down))
    && (forall j :: 0 <= j < i ==> list[j].Upstream == Normal(rs[j].up) && list[j].Downstream == Normal(rs[j].down))
  }

  /** The second loop's body for the step at `i`. */
  method WireAt(vertices: map<string, Vertex>, ghost links: seq<(string, string)>, list: seq<Step>, ghost rs: seq<StepRefs>, i: nat)
    returns (ghost grown: seq<(string, string)>)
    requires forall x :: x in vertices ==> vertices[x].ID == x
    requires i < |list| && list[i].Id in vertices && Wired(vertices, ListsOf(vertices), links, false)
    requires Rewritten(list, rs, i) && links == Links(rs[..i], vertices.Keys)
    modifies vertices.Values, list[i]
    ensures grown == Links(rs[..i + 1], vertices.Keys)
    ensures Wired(vertices, ListsOf(vertices), grown, false)
    ensures Rewritten(list, rs, i + 1)
  {
    NormalIdempotent(rs[i].up);
    NormalIdempotent(rs[i].down);
    assert rs[..i + 1][..i] == rs[..i];
    label Before:
    grown := WireStep(vertices, links, list[i]);
    forall j | 0 <= j < |list|
      ensures Normal(list[j].Upstream) == Normal(rs[j].up) && Normal(list[j].Downstream) == Normal(rs[j].down)
      ensures j <= i ==> list[j].Upstream == Normal(rs[j].up) && list[j].Downstream == Normal(rs[j].down)
    {
      if list[j] != list[i] {
        assert list[j].Upstream == old@Before(list[j].Upstream) && list[j].Downstream == old@Before(list[j].Downstream);
      }
    }
  }

  /** The second loop's body for one step. */
  method WireStep(vertices: map<string, Vertex>, ghost links: seq<(string, string)>, step: Step) returns (ghost grown: seq<(string, string)>)
    requires forall x :: x in vertices ==> vertices[x].ID == x
    requires step.Id in vertices && Wired(vertices, ListsOf(vertices), links, false)
    modifies vertices.Values, step
    ensures step.Upstream == Normal(old(step.Upstream)) && step.Downstream == Normal(old(step.Downstream))
    ensures grown == links + StepLinks(StepRefs(step.Id, old(step.Upstream), old(step.Downstream)), vertices.Keys)
    ensures Wired(vertices, ListsOf(vertices), grown, false)
  {
    ghost var r := StepRefs(step.Id, step.Upstream, step.Downstream);
    var up := Normal(step.Upstream);
    step.Upstream := up;
    ghost var before := ConnectUpstream(vertices, links, Names(up), step.Id);
    var down := Normal(step.Downstream);
    assert down == Normal(r.down);
    step.Downstream := down;
    grown := ConnectDownstream(vertices, before, step.Id, Names(down));
    Concat(links, Before(Names(up), r.id, vertices.Keys), After(r.id, Names(down), vertices.Keys));
  }

  /** Links appended in two parts are the two parts appended at once. */
  lemma Concat(x: seq<(string, string)>, a: seq<(string, string)>, b: seq<(string, string)>)
    ensures x + a + b == x + (a + b)
  {
  }

  /** The first ID, in list order, that repeats an earlier one: the one whose `AddVertex` throws. */
  function Repeated(ids: seq<string>): (r: Option<string>)
    ensures r.None? <==> Traversal.NoDuplicates(ids)
    ensures r.Some? ==> exists i :: 0 <= i < |ids| && ids[i] == r.value && r.value in ids[..i] && Traversal.NoDuplicates(ids[..i])
  {
    if ids == [] then None
    else
      var n := |ids| - 1;
      var earlier := Repeated(ids[..n]);
      if earlier.Some? then
        assert forall i :: 0 <= i < n ==> ids[..n][..i] == ids[..i];
        earlier
      else if ids[n] in ids[..n] then Some(ids[n])
      else
        assert forall i, j :: 0 <= i < j < |ids| ==> ids[i] != ids[j] by {
          forall i, j | 0 <= i < j < |ids| ensures ids[i] != ids[j] {
            if j < n { assert ids[..n][i] == ids[i] && ids[..n][j] == ids[j]; }
            else { assert ids[i] in ids[..n]; }
          }
        }
        None
  }

  /** The IDs of the steps, in list order. */
  function StepIds(list: seq<Step>): (ids: seq<string>)
    ensures |ids| == |list| && forall i :: 0 <= i < |list| ==> ids[i] == list[i].Id
  {
    if list == [] then [] else StepIds(list[..|list| - 1]) + [list[|list| - 1].Id]
  }

  /** The third loop of the compiler: `AddVertex` for each step's vertex, in list order, until one throws. */
  method AddAll(vertices: map<string, Vertex>, ids: seq<string>) returns (r: Result<Graph, GraphError>)
    requires forall x :: x in vertices ==> vertices[x].ID == x
    requires forall x :: x in vertices <==> x in ids
    ensures r.Err? <==> Repeated(ids).Some?
    ensures r.Err? ==> r.error == AlreadyExists(Repeated(ids).value)
    ensures r.Ok? ==> fresh(r.value) && r.value.Valid() && r.value.Vertices == vertices && r.value.Order == ids
  {
    var g := new Graph();
    for i := 0 to |ids|
      invariant fresh(g) && g.Valid() && g.Order == ids[..i] && Repeated(ids[..i]).None?
      invariant forall x :: x in g.Vertices ==> g.Vertices[x] == vertices[x]
    {
      assert ids[..i + 1][..i] == ids[..i];
      var added := g.AddVertex(vertices[ids[i]]);
      if added.Fail? {
        assert Repeated(ids[..i + 1]) == Some(ids[i]);
        RepeatedPrefix(ids, i + 1);
        return Err(added.error);
      }
    }
    assert ids[..|ids|] == ids;
    assert g.Vertices == vertices;
    r := Ok(g);
  }

  /** Once a prefix repeats an ID, the whole list repeats that same one first. */
  lemma {:induction false} RepeatedPrefix(ids: seq<string>, i: nat)
    requires i <= |ids| && Repeated(ids[..i]).Some?
    ensures Repeated(ids) == Repeated(ids[..i])
    decreases |ids| - i
  {
    if i < |ids| {
      assert ids[..i + 1][..i] == ids[..i];
      RepeatedPrefix(ids, i + 1);
    } else {
      assert ids[..i] == ids;
    }
  }

  /** What `CompileGraph` returns: the lone step (none for an empty list), or the graph and the steps. */
  datatype Compiled = Single(only: Option<Step>) | Multi(graph: Graph, steps: seq<Step>)

  /** `g` is a well-formed graph whose edges, all directed, are exactly those of `links`. */
  ghost predicate Built(g: Graph, links: seq<(string, string)>)
    reads g, g.Vertices.Values
  {
    g.Valid() && Wired(g.Vertices, ListsOf(g.Vertices), links, true)
  }

  /** In a built graph, `s` is adjacent to `u` exactly when `(u, s)` is a link, and every adjacent ID is a vertex. */
  lemma BuiltAdjacency(g: Graph, links: seq<(string, string)>)
    requires Built(g, links)
    ensures Successors(g, links)
  {
    forall u, s | u in g.Vertices
      ensures s in g.Adjacency()[u] <==> (u, s) in links
    {
      WiredAdjacent(g.Vertices, links, u, s);
    }
    forall u, i | u in g.Adjacency() && 0 <= i < |g.Adjacency()[u]|
      ensures g.Adjacency()[u][i] in g.Adjacency()
    {
      var s := g.Adjacency()[u][i];
      assert s in g.Adjacency()[u];
      assert StoredAtBothEnds(g.Vertices, ListsOf(g.Vertices), true, (u, s));
    }
  }

  /** A built graph has a directed edge exactly when there is a link. */
  lemma BuiltDirected(g: Graph, links: seq<(string, string)>)
    requires Built(g, links)
    ensures g.AnyDirected() <==> links != []
  {
    if links != [] {
      var p := links[0];
      assert StoredAtBothEnds(g.Vertices, ListsOf(g.Vertices), true, p);
      var e := LinkEdge(g.Vertices, p.0, p.1, true);
      var k :| 0 <= k < |g.Vertices[p.0].Edges| && g.Vertices[p.0].Edges[k] == e;
      assert g.Vertices[p.0].Edges[k].Directed;
    }
    if g.AnyDirected() {
      var id, k :| id in g.Vertices && 0 <= k < |g.Vertices[id].Edges| && g.Vertices[id].Edges[k].Directed;
      assert EdgeOfLink(g.Vertices, links, true, id, ListsOf(g.Vertices)[id][k]);
    }
  }

  /** Each step's references are the rewrite of what `rs` records for it. */
  ghost predicate NormalizedFrom(list: seq<Step>, rs: seq<StepRefs>)
    reads list
  {
    |rs| == |list| && forall i :: 0 <= i < |list| ==> list[i].Upstream == Normal(rs[i].up) && list[i].Downstream == Normal(rs[i].down)
  }

  /**
   * What `CompileGraph(list)` returns: the lone step (none for an empty
   * list); otherwise an "already exists" error for the first repeated ID,
   * or the steps with a graph of their IDs shaped by `links`.
   */
  ghost predicate CompiledAs(list: seq<Step>, r: Result<Compiled, GraphError>, links: seq<(string, string)>)
    reads if r.Ok? && r.value.Multi? then {r.value.graph} else {}
    reads if r.Ok? && r.value.Multi? then r.value.graph.Vertices.Values else {}
  {
    match r
    case Err(e) =>
      |list| > 1 && Repeated(StepIds(list)).Some? && e == AlreadyExists(Repeated(StepIds(list)).value)
    case Ok(Single(only)) =>
      |list| <= 1 && only == (if list == [] then None else Some(list[0]))
    case Ok(Multi(g, steps)) =>
      |list| > 1 && Repeated(StepIds(list)).None? && steps == list && g.Order == StepIds(list) && Shaped(g, links)
  }

  /**
   * `CompileGraph`: one vertex per step ID, the references rewritten and
   * wired, then, for two or more steps, every vertex added to a new graph
   * (throwing on a repeated ID) and every edge made directed.
   */
  method CompileGraph(list: seq<Step>) returns (r: Result<Compiled, GraphError>, ghost links: seq<(string, string)>)
    modifies list
    ensures links == Links(old(RefsOf(list)), IdSet(list)) && NormalizedFrom(list, old(RefsOf(list)))
    ensures CompiledAs(list, r, links)
  {
    var vertices, ids;
    vertices, ids, links := WireSteps(list);
    if |list| <= 1 {
      r := Ok(Single(if list == [] then None else Some(list[0])));
      CompiledSingle(list, r, links);
    } else {
      r := Finish(list, vertices, ids, links);
    }
  }

  /** For at most one step the compiler returns that step and no graph. */
  lemma CompiledSingle(list: seq<Step>, r: Result<Compiled, GraphError>, links: seq<(string, string)>)
    requires |list| <= 1 && r == Ok(Single(if list == [] then None else Some(list[0])))
    ensures CompiledAs(list, r, links)
  {
  }

  /** The end of the compiler for two or more steps: the graph of every vertex, with its edges made directed. */
  method Finish(list: seq<Step>, vertices: map<string, Vertex>, ids: seq<string>, ghost links: seq<(string, string)>)
    returns (r: Result<Compiled, GraphError>)
    requires |list| > 1 && ids == StepIds(list) && Staged(vertices, ids, links)
    modifies vertices.Values
    ensures CompiledAs(list, r, links)
    ensures r.Ok? && r.value.Multi? ==> fresh(r.value.graph)
    ensures forall i :: 0 <= i < |list| ==> unchanged(list[i])
  {
    var g := Assemble(vertices, ids, links);
    r := if g.Err? then Err(g.error) else Ok(Multi(g.value, list));
  }

  /** A vertex per listed ID, each under its own ID, and undirected edges for exactly `links`. */
  ghost predicate Staged(vertices: map<string, Vertex>, ids: seq<string>, links: seq<(string, string)>)
    reads vertices.Values
  {
    && (forall x :: x in vertices ==> vertices[x].ID == x)
    && (forall x :: x in vertices <==> x in ids)
    && Wired(vertices, ListsOf(vertices), links, false)
  }

  /** The first two loops of the compiler: a vertex per step ID, then the references rewritten and wired. */
  method WireSteps(list: seq<Step>) returns (vertices: map<string, Vertex>, ids: seq<string>, ghost links: seq<(string, string)>)
    modifies list
    ensures ids == StepIds(list) && Staged(vertices, ids, links)
    ensures forall v :: v in vertices.Values ==> fresh(v)
    ensures links == Links(old(RefsOf(list)), IdSet(list))
    ensures NormalizedFrom(list, old(RefsOf(list)))
  {
    ids := StepIds(list);
    vertices := StepVertices(list, ids);
    links := Wire(list, vertices);
  }

  /** The first loop of the compiler: a new vertex, without edges, per step ID. */
  method StepVertices(list: seq<Step>, ids: seq<string>) returns (vertices: map<string, Vertex>)
    requires ids == StepIds(list)
    ensures vertices.Keys == IdSet(list) && forall x :: x in vertices <==> x in ids
    ensures forall x :: x in vertices ==> vertices[x].ID == x
    ensures forall v :: v in vertices.Values ==> fresh(v)
    ensures Wired(vertices, ListsOf(vertices), [], false)
  {
    var order;
    vertices, order := Graph.NewVertices(ids);
    assert vertices.Keys == IdSet(list) by {
      forall x ensures x in vertices <==> x in IdSet(list) {
        if x in ids {
          var i :| 0 <= i < |ids| && ids[i] == x;
        }
      }
    }
  }

  /** The end of `CompileGraph` for two or more steps: the graph of the wired vertices, with every edge directed. */
  method Assemble(vertices: map<string, Vertex>, ids: seq<string>, ghost links: seq<(string, string)>) returns (r: Result<Graph, GraphError>)
    requires Staged(vertices, ids, links)
    modifies vertices.Values
    ensures r.Err? <==> Repeated(ids).Some?
    ensures r.Err? ==> r.error == AlreadyExists(Repeated(ids).value)
    ensures r.Ok? ==> fresh(r.value) && r.value.Order == ids && r.value.Vertices == vertices && Shaped(r.value, links)
  {
    r := AddAll(vertices, ids);
    if r.Ok? {
      ghost var before := ListsOf(vertices);
      r.value.SetAllDirected(true);
      Redirect(vertices, before, links, ListsOf(vertices));
      BuiltShaped(r.value, links);
    }
  }

  /** Every link between two listed IDs puts the first before the second. */
  ghost predicate RespectsLinks(order: seq<string>, links: seq<(string, string)>) {
    forall i, j :: 0 <= i < |order| && 0 <= j < |order| && (order[i], order[j]) in links ==> i < j
  }

  /**
   * What `CompileSteps(list)` returns, given the references `rs` the steps
   * held and the links they make: nothing for no steps, the lone ID for one
   * step; otherwise an "already exists" error for the first repeated ID, a
   * "not meaningful" error when there is no link, and, when the step graph
   * has no cycle, every ID once with each linked pair in order.
   */
  ghost predicate StepsCompiledAs(list: seq<Step>, rs: seq<StepRefs>, r: Result<seq<string>, GraphError>, links: seq<(string, string)>) {
    match r
    case Err(e) =>
      && |list| > 1
      && (match Repeated(StepIds(list))
          case Some(x) => e == AlreadyExists(x)
          case None => links == [] && e == NotMeaningful)
    case Ok(order) =>
      && (list == [] ==> order == [])
      && (|list| == 1 ==> order == [list[0].Id])
      && (|list| > 1 ==> Repeated(StepIds(list)).None? && links != [])
      && (|list| > 1 && !Traversal.HasCycle(StepGraph(rs)) ==>
            && Traversal.NoDuplicates(order)
            && (forall x :: x in order <==> x in IdSet(list))
            && RespectsLinks(order, links))
  }

  /**
   * `CompileSteps`: nothing for no steps, the lone ID for one step, and
   * otherwise the topological sort of the compiled graph. It throws on a
   * repeated ID, and also when no step names another (an edgeless graph
   * is undirected, and sorting one is refused); it never reports a cycle.
   */
  method CompileSteps(list: seq<Step>) returns (r: Result<seq<string>, GraphError>, ghost links: seq<(string, string)>)
    modifies list
    ensures links == Links(old(RefsOf(list)), IdSet(list)) && NormalizedFrom(list, old(RefsOf(list)))
    ensures StepsCompiledAs(list, old(RefsOf(list)), r, links)
  {
    ghost var rs := RefsOf(list);
    if |list| < 1 {
      return Ok([]), [];
    }
    var compiled;
    compiled, links := CompileGraph(list);
    r := SortCompiled(list, compiled, links, rs);
  }

  /** The end of `CompileSteps`: the lone ID, the compiler's error, or the topological sort of the graph. */
  method SortCompiled(list: seq<Step>, compiled: Result<Compiled, GraphError>, ghost links: seq<(string, string)>, ghost rs: seq<StepRefs>)
    returns (r: Result<seq<string>, GraphError>)
    requires list != [] && CompiledAs(list, compiled, links)
    requires |rs| == |list| && (forall i :: 0 <= i < |list| ==> rs[i].id == list[i].Id) && links == Links(rs, IdSet(list))
    ensures StepsCompiledAs(list, rs, r, links)
  {
    match compiled
    case Err(e) =>
      r := Err(e);
    case Ok(Single(only)) =>
      r := Ok([only.value.Id]);
    case Ok(Multi(g, _)) =>
      r := SortBuilt(list, g, links, rs);
  }

  /**
   * The facts about a compiled graph that its users need: its vertices
   * are the step IDs, an ID is adjacent to `u` (and `u` precedes it)
   * exactly when the compiler linked them, and it is directed exactly
   * when there is a link.
   */
  ghost predicate Shaped(g: Graph, links: seq<(string, string)>)
    reads g, g.Vertices.Values
  {
    g.Valid() && Successors(g, links) && Precedents(g, links) && (g.AnyDirected() <==> links != [])
  }

  /** Every adjacent ID is a vertex, and `s` is adjacent to `u` exactly when `(u, s)` is a link. */
  ghost predicate Successors(g: Graph, links: seq<(string, string)>)
    reads g, g.Vertices.Values
  {
    && Traversal.Closed(g.Adjacency())
    && (forall u, s :: u in g.Vertices ==> (s in g.Adjacency()[u] <==> (u, s) in links))
  }

  /** `u` is a precedent of `s` exactly when `(u, s)` is a link. */
  ghost predicate Precedents(g: Graph, links: seq<(string, string)>)
    reads g, g.Vertices.Values
  {
    forall u, s :: s in g.Vertices ==> (u in Ids(PrecedentOf(g.Vertices[s], g.Vertices[s].Edges)) <==> (u, s) in links)
  }

  /** A built graph has the shape of its links. */
  lemma BuiltShaped(g: Graph, links: seq<(string, string)>)
    requires Built(g, links)
    ensures Shaped(g, links)
  {
    BuiltAdjacency(g, links);
    BuiltDirected(g, links);
    BuiltPrecedent(g, links);
  }

  /** In a built graph, `u` precedes `s` exactly when `(u, s)` is a link. */
  lemma BuiltPrecedent(g: Graph, links: seq<(string, string)>)
    requires Built(g, links)
    ensures Precedents(g, links)
  {
    forall u, s | s in g.Vertices
      ensures u in Ids(PrecedentOf(g.Vertices[s], g.Vertices[s].Edges)) <==> (u, s) in links
    {
      WiredPrecedent(g.Vertices, links, u, s);
    }
  }

  /** The topological sort of the graph compiled from two or more steps with distinct IDs. */
  method SortBuilt(list: seq<Step>, g: Graph, ghost links: seq<(string, string)>, ghost rs: seq<StepRefs>) returns (r: Result<seq<string>, GraphError>)
    requires |list| > 1 && Repeated(StepIds(list)).None? && g.Order == StepIds(list)
    requires g.Valid() && Successors(g, links) && (g.AnyDirected() <==> links != [])
    requires |rs| == |list| && (forall i :: 0 <= i < |list| ==> rs[i].id == list[i].Id) && links == Links(rs, IdSet(list))
    ensures StepsCompiledAs(list, rs, r, links)
  {
    r := SortDirected(g, links);
    SortedSteps(list, rs, links, g, r);
  }

  /** The sort of the compiled graph, restated for the steps. */
  lemma SortedSteps(list: seq<Step>, rs: seq<StepRefs>, links: seq<(string, string)>, g: Graph, r: Result<seq<string>, GraphError>)
    requires |list| > 1 && Repeated(StepIds(list)).None? && g.Valid() && g.Order == StepIds(list)
    requires forall u, s :: u in g.Vertices ==> (s in g.Adjacency()[u] <==> (u, s) in links)
    requires |rs| == |list| && (forall i :: 0 <= i < |list| ==> rs[i].id == list[i].Id) && links == Links(rs, IdSet(list))
    requires (r.Err? <==> links == []) && (r.Err? ==> r.error == NotMeaningful)
    requires links != [] && !Traversal.HasCycle(g.Adjacency()) ==>
      && Traversal.NoDuplicates(r.value)
      && (forall x :: x in r.value <==> x in g.Vertices)
      && RespectsLinks(r.value, links)
    ensures StepsCompiledAs(list, rs, r, links)
  {
    OrderKeys(list, g, rs);
    BuiltCycles(g, links, rs);
  }

  /** The vertices of a graph ordered by the step IDs are the IDs of the steps and of their references. */
  lemma OrderKeys(list: seq<Step>, g: Graph, rs: seq<StepRefs>)
    requires g.Valid() && g.Order == StepIds(list)
    requires |rs| == |list| && forall i :: 0 <= i < |list| ==> rs[i].id == list[i].Id
    ensures g.Vertices.Keys == IdSet(list) == (set i | 0 <= i < |rs| :: rs[i].id)
  {
    forall x | x in g.Vertices ensures x in IdSet(list) {
      var i :| 0 <= i < |g.Order| && g.Order[i] == x;
    }
  }

  /** The built graph has a cycle exactly when the step graph has one. */
  lemma BuiltCycles(g: Graph, links: seq<(string, string)>, rs: seq<StepRefs>)
    requires g.Valid()
    requires forall u, s :: u in g.Vertices ==> (s in g.Adjacency()[u] <==> (u, s) in links)
    requires g.Vertices.Keys == (set i | 0 <= i < |rs| :: rs[i].id) && links == Links(rs, g.Vertices.Keys)
    ensures Traversal.HasCycle(g.Adjacency()) <==> Traversal.HasCycle(StepGraph(rs))
  {
    StepGraphArcs(rs, g.Vertices.Keys);
    SameArcsSameCycles(g.Adjacency(), StepGraph(rs));
  }

  /** `TopologicalSort()` with default options, on a graph whose adjacency is the links. */
  method SortDirected(g: Graph, ghost links: seq<(string, string)>) returns (r: Result<seq<string>, GraphError>)
    requires g.Valid() && Traversal.Closed(g.Adjacency())
    requires forall u, s :: u in g.Vertices ==> (s in g.Adjacency()[u] <==> (u, s) in links)
    requires g.AnyDirected() <==> links != []
    ensures (r.Err? <==> links == []) && (r.Err? ==> r.error == NotMeaningful)
    ensures links != [] && !Traversal.HasCycle(g.Adjacency()) ==>
      && Traversal.NoDuplicates(r.value)
      && (forall x :: x in r.value <==> x in g.Vertices)
      && RespectsLinks(r.value, links)
  {
    r := g.TopologicalSort(SearchOptions(None, None, None, None, None));
    if links != [] && !Traversal.HasCycle(g.Adjacency()) {
      forall i, j | 0 <= i < |r.value| && 0 <= j < |r.value| && (r.value[i], r.value[j]) in links
        ensures i < j
      {
        assert r.value[j] in g.Adjacency()[r.value[i]];
      }
    }
  }

  /** The step graph has the step IDs as vertices and the compiler's links as arcs. */
  lemma StepGraphArcs(rs: seq<StepRefs>, keys: set<string>)
    requires keys == set i | 0 <= i < |rs| :: rs[i].id
    ensures StepGraph(rs).Keys == keys
    ensures forall u, s :: u in keys ==> (s in StepGraph(rs)[u] <==> (u, s) in Links(rs, keys))
  {
  }
}
