/**
 * The three-colour depth-first search of `Graph.DepthFirstSearch`
 * (Lib/Graphing/Graph.js), stated over the adjacency of a graph: for each
 * vertex ID, the IDs `GetAdjacent` reports, in order. `Graphs.Graph` runs
 * the same search over its vertex objects and is proved equal to these
 * functions; the theorems about the search are proved here.
 */
module Traversal {
  import opened Wrappers

  /** For each vertex ID, the IDs of its adjacent vertices in edge-list order. */
  type Adj = map<string, seq<string>>

  /** Every adjacent ID names a vertex of the graph. */
  predicate Closed(adj: Adj) {
    forall u, i :: u in adj && 0 <= i < |adj[u]| ==> adj[u][i] in adj
  }

  /** The `IsDirected` and `AllowCycle` options of a search. */
  datatype Flags = Flags(directed: bool, allowCycle: bool)

  /** The `visited` and `visiting` marks and the output list of a search in progress. */
  datatype State = State(visited: set<string>, visiting: set<string>, list: seq<string>)

  /** A search either completes or throws "Cycle exists from `vertex` to `parent`". */
  datatype Outcome = Completed(state: State) | CycleFound(vertex: string, parent: Option<string>)

  lemma SubsetSmaller(a: set<string>, b: set<string>)
    requires a <= b
    ensures |a| <= |b|
  {
    if a != {} {
      var x :| x in a;
      SubsetSmaller(a - {x}, b - {x});
    }
  }

  /** The marks only grow, within the graph, and the output list only grows at its end. */
  predicate Extends(adj: Adj, s: State, t: State) {
    s.visited <= t.visited <= adj.Keys && s.list <= t.list
  }

  /**
   * `dfs_visit(v, parent)`: the cycle test for the mode, then, for an
   * unvisited vertex, mark it, visit its adjacents and append it to the list.
   */
  function Visit(adj: Adj, f: Flags, v: string, parent: Option<string>, s: State): (r: Outcome)
    requires Closed(adj) && v in adj && s.visited <= adj.Keys
    ensures r.Completed? ==> Extends(adj, s, r.state)
    ensures r.CycleFound? ==> !f.allowCycle
    decreases |adj.Keys - s.visited|, 0, 0
  {
    if !f.allowCycle && (if f.directed then v in s.visiting else v in s.visited) then
      CycleFound(v, parent)
    else if v in s.visited then
      Completed(s)
    else
      var s1 := Enter(s, v);
      assert adj.Keys - s1.visited == (adj.Keys - s.visited) - {v};
      match VisitAdjacent(adj, f, v, parent, 0, s1)
      case CycleFound(x, p) => CycleFound(x, p)
      case Completed(s2) => Completed(Leave(s2, v))
  }

  /** Marks `v` visited and visiting. */
  function Enter(s: State, v: string): State {
    State(s.visited + {v}, s.visiting + {v}, s.list)
  }

  /** Clears the visiting mark of `v` and appends it to the list. */
  function Leave(s: State, v: string): State {
    State(s.visited, s.visiting - {v}, s.list + [v])
  }

  /**
   * The loop of `dfs_visit` over the adjacents of `u` from position `i`: in
   * directed mode every adjacent is visited; in undirected mode the adjacent
   * with the ID of `u`'s own parent is skipped.
   */
  function VisitAdjacent(adj: Adj, f: Flags, u: string, parent: Option<string>, i: nat, s: State): (r: Outcome)
    requires Closed(adj) && u in adj && i <= |adj[u]| && s.visited <= adj.Keys
    ensures r.Completed? ==> Extends(adj, s, r.state)
    ensures r.CycleFound? ==> !f.allowCycle
    decreases |adj.Keys - s.visited|, 1, |adj[u]| - i
  {
    if i == |adj[u]| then
      Completed(s)
    else
      var a := adj[u][i];
      if f.directed || parent.None? || a != parent.value then
        match Visit(adj, f, a, Some(u), s)
        case CycleFound(x, p) => CycleFound(x, p)
        case Completed(s2) =>
          SubsetSmaller(adj.Keys - s2.visited, adj.Keys - s.visited);
          VisitAdjacent(adj, f, u, parent, i + 1, s2)
      else
        VisitAdjacent(adj, f, u, parent, i + 1, s)
  }

  /** One step of `Visit` on an unvisited vertex that raises no cycle error. */
  lemma VisitUnvisited(adj: Adj, f: Flags, v: string, parent: Option<string>, s: State)
    requires Closed(adj) && v in adj && s.visited <= adj.Keys && v !in s.visited
    requires f.allowCycle || !f.directed || v !in s.visiting
    ensures var r := VisitAdjacent(adj, f, v, parent, 0, Enter(s, v));
      Visit(adj, f, v, parent, s) == if r.Completed? then Completed(Leave(r.state, v)) else r
  {
  }

  /** One step of `VisitAdjacent`. */
  lemma VisitAdjacentStep(adj: Adj, f: Flags, u: string, parent: Option<string>, i: nat, s: State)
    requires Closed(adj) && u in adj && i < |adj[u]| && s.visited <= adj.Keys
    ensures var a := adj[u][i];
      VisitAdjacent(adj, f, u, parent, i, s)
      == if f.directed || parent.None? || a != parent.value then
           (var r := Visit(adj, f, a, Some(u), s);
            if r.Completed? then VisitAdjacent(adj, f, u, parent, i + 1, r.state) else r)
         else VisitAdjacent(adj, f, u, parent, i + 1, s)
  {
  }

  /** One step of `VisitSources`. */
  lemma VisitSourcesStep(adj: Adj, f: Flags, sources: seq<string>, i: nat, s: State)
    requires Closed(adj) && i < |sources| && s.visited <= adj.Keys
    requires forall j :: 0 <= j < |sources| ==> sources[j] in adj
    ensures VisitSources(adj, f, sources, i, s)
      == if sources[i] in s.visited then VisitSources(adj, f, sources, i + 1, s)
         else
           (var r := Visit(adj, f, sources[i], None, s);
            if r.Completed? then VisitSources(adj, f, sources, i + 1, r.state) else r)
  {
  }

  /** The loop over the sources: each one not yet visited starts a new tree. */
  function VisitSources(adj: Adj, f: Flags, sources: seq<string>, i: nat, s: State): (r: Outcome)
    requires Closed(adj) && i <= |sources| && s.visited <= adj.Keys
    requires forall j :: 0 <= j < |sources| ==> sources[j] in adj
    ensures r.Completed? ==> Extends(adj, s, r.state)
    decreases |sources| - i
  {
    if i == |sources| then
      Completed(s)
    else if sources[i] in s.visited then
      VisitSources(adj, f, sources, i + 1, s)
    else
      match Visit(adj, f, sources[i], None, s)
      case CycleFound(x, p) => CycleFound(x, p)
      case Completed(s2) => VisitSources(adj, f, sources, i + 1, s2)
  }

  /**
   * The whole search. With `IncludeSources` false every source is marked
   * visited, and the guard of the second loop then never lets a visit start.
   */
  function Search(adj: Adj, f: Flags, sources: seq<string>, includeSources: bool): (r: Outcome)
    requires Closed(adj) && forall j :: 0 <= j < |sources| ==> sources[j] in adj
    ensures !includeSources ==> r.Completed? && r.state.list == []
    ensures r.CycleFound? ==> !f.allowCycle
  {
    if includeSources then
      var r := VisitSources(adj, f, sources, 0, State({}, {}, []));
      VisitSourcesCycleNeedsFlag(adj, f, sources, 0, State({}, {}, []));
      r
    else
      Completed(State(set j | 0 <= j < |sources| :: sources[j], {}, []))
  }

  lemma {:induction false} VisitSourcesCycleNeedsFlag(adj: Adj, f: Flags, sources: seq<string>, i: nat, s: State)
    requires Closed(adj) && i <= |sources| && s.visited <= adj.Keys
    requires forall j :: 0 <= j < |sources| ==> sources[j] in adj
    ensures VisitSources(adj, f, sources, i, s).CycleFound? ==> !f.allowCycle
    decreases |sources| - i
  {
    if i < |sources| {
      if sources[i] in s.visited {
        VisitSourcesCycleNeedsFlag(adj, f, sources, i + 1, s);
      } else if Visit(adj, f, sources[i], None, s).Completed? {
        VisitSourcesCycleNeedsFlag(adj, f, sources, i + 1, Visit(adj, f, sources[i], None, s).state);
      }
    }
  }

  // ----- Paths, cycles and orders -----

  /** Consecutive elements of `p` are joined by adjacency. */
  ghost predicate IsPath(adj: Adj, p: seq<string>) {
    forall i :: 0 <= i < |p| - 1 ==> p[i] in adj && p[i + 1] in adj[p[i]]
  }

  /** A path of at least one step that ends where it starts. */
  ghost predicate IsCycle(adj: Adj, p: seq<string>) {
    |p| >= 2 && IsPath(adj, p) && p[0] == p[|p| - 1]
  }

  ghost predicate HasCycle(adj: Adj) {
    exists p :: IsCycle(adj, p)
  }

  predicate NoDuplicates(s: seq<string>) {
    forall i, j :: 0 <= i < j < |s| ==> s[i] != s[j]
  }

  predicate AllIn(xs: seq<string>, ys: seq<string>) {
    forall j :: 0 <= j < |xs| ==> xs[j] in ys
  }

  /** Every vertex of the list comes after all of its adjacents (post-order). */
  predicate PostOrdered(adj: Adj, list: seq<string>) {
    forall i :: 0 <= i < |list| ==> list[i] in adj && AllIn(adj[list[i]], list[..i])
  }

  /** Every adjacency `u -> w` between listed vertices puts `u` before `w`. */
  predicate TopologicallyOrdered(adj: Adj, order: seq<string>) {
    forall i, j :: 0 <= i < |order| && 0 <= j < |order| && order[i] in adj && order[j] in adj[order[i]] ==> i < j
  }

  function Reverse(s: seq<string>): (r: seq<string>)
    ensures |r| == |s| && forall i :: 0 <= i < |s| ==> r[i] == s[|s| - 1 - i]
  {
    if s == [] then [] else Reverse(s[1..]) + [s[0]]
  }

  /** What holds between visits: the grey vertices form the current path, in order, and the list is post-ordered. */
  ghost predicate Inv(adj: Adj, s: State, stack: seq<string>) {
    && s.visited <= adj.Keys
    && s.visiting <= s.visited
    && NoDuplicates(s.list) && NoDuplicates(stack)
    && (forall x :: x in s.list <==> x in s.visited && x !in s.visiting)
    && (forall x :: x in stack <==> x in s.visiting)
    && IsPath(adj, stack)
    && PostOrdered(adj, s.list)
  }

  /** Reaching a grey vertex from the top of the path closes a cycle. */
  lemma GreyVertexClosesCycle(adj: Adj, stack: seq<string>, v: string)
    requires IsPath(adj, stack) && v in stack && |stack| > 0
    requires stack[|stack| - 1] in adj && v in adj[stack[|stack| - 1]]
    ensures HasCycle(adj)
  {
    var j :| 0 <= j < |stack| && stack[j] == v;
    var p := stack[j..] + [v];
    assert forall i :: 0 <= i < |p| - 1 ==> p[i] == stack[j + i];
    assert IsCycle(adj, p);
  }

  /** Entering an unvisited vertex adjacent to the top of the path extends the path by it. */
  lemma EnterKeepsInvariant(adj: Adj, s: State, stack: seq<string>, v: string, parent: Option<string>)
    requires v in adj && v !in s.visited && Inv(adj, s, stack)
    requires parent.None? ==> stack == []
    requires parent.Some? ==> |stack| > 0 && stack[|stack| - 1] == parent.value && v in adj[parent.value]
    ensures Inv(adj, Enter(s, v), stack + [v])
  {
    var stack1 := stack + [v];
    assert forall i :: 0 <= i < |stack| ==> stack1[i] == stack[i];
    assert IsPath(adj, stack1);
  }

  /** Leaving a vertex whose adjacents are all listed restores the shorter path. */
  lemma LeaveKeepsInvariant(adj: Adj, s: State, stack: seq<string>, v: string)
    requires v in adj && Inv(adj, s, stack + [v]) && AllIn(adj[v], s.list)
    ensures Inv(adj, Leave(s, v), stack)
    ensures Leave(s, v).visiting == s.visiting - {v} && v in Leave(s, v).list
  {
    var t := Leave(s, v);
    var long := stack + [v];
    assert v in long;
    assert v !in s.list;
    assert forall i :: 0 <= i < |stack| ==> long[i] == stack[i];
    assert v !in stack by {
      if k :| 0 <= k < |stack| && stack[k] == v {
        assert long[k] == long[|stack|];
      }
    }
    assert NoDuplicates(stack) && IsPath(adj, stack);
    assert forall x :: x in stack <==> x in t.visiting;
    assert PostOrdered(adj, t.list) by {
      forall i | 0 <= i < |t.list|
        ensures t.list[i] in adj && AllIn(adj[t.list[i]], t.list[..i])
      {
        if i < |s.list| {
          assert t.list[..i] == s.list[..i];
        } else {
          assert t.list[..i] == s.list;
        }
      }
    }
  }

  /** A list that only grows at its end keeps what it holds, and now holds one more of `xs`. */
  lemma AllInGrows(xs: seq<string>, i: int, ys: seq<string>, zs: seq<string>)
    requires 0 <= i < |xs| && AllIn(xs[..i], ys) && ys <= zs && xs[i] in zs
    ensures AllIn(xs[..i + 1], zs)
  {
    assert forall j :: 0 <= j < i ==> xs[..i + 1][j] == xs[..i][j];
  }

  /**
   * In directed mode a visit either keeps the invariant, leaves the path as
   * it was and lists `v`, or meets a cycle; it reports a cycle only when one
   * exists, and completes over a cycle only when cycles are allowed.
   */
  lemma {:induction false} VisitKeepsInvariant(adj: Adj, f: Flags, v: string, parent: Option<string>, s: State, stack: seq<string>)
    requires Closed(adj) && v in adj && f.directed && Inv(adj, s, stack)
    requires parent.None? ==> stack == []
    requires parent.Some? ==> |stack| > 0 && stack[|stack| - 1] == parent.value && v in adj[parent.value]
    ensures var r := Visit(adj, f, v, parent, s);
      && (r.CycleFound? ==> HasCycle(adj))
      && (r.Completed? ==> (f.allowCycle && HasCycle(adj))
                           || (Inv(adj, r.state, stack) && r.state.visiting == s.visiting && v in r.state.list))
    decreases |adj.Keys - s.visited|, 0, 1
  {
    if v in s.visiting {
      GreyVertexClosesCycle(adj, stack, v);
      assert Visit(adj, f, v, parent, s) == if f.allowCycle then Completed(s) else CycleFound(v, parent);
    } else if v in s.visited {
      assert Visit(adj, f, v, parent, s) == Completed(s);
    } else {
      VisitUnvisitedKeepsInvariant(adj, f, v, parent, s, stack);
    }
  }

  /** The case of `VisitKeepsInvariant` where `v` is not yet visited: enter it, visit its adjacents, leave it. */
  lemma {:induction false} VisitUnvisitedKeepsInvariant(adj: Adj, f: Flags, v: string, parent: Option<string>, s: State, stack: seq<string>)
    requires Closed(adj) && v in adj && f.directed && Inv(adj, s, stack) && v !in s.visited
    requires parent.None? ==> stack == []
    requires parent.Some? ==> |stack| > 0 && stack[|stack| - 1] == parent.value && v in adj[parent.value]
    ensures var r := Visit(adj, f, v, parent, s);
      && (r.CycleFound? ==> HasCycle(adj))
      && (r.Completed? ==> (f.allowCycle && HasCycle(adj))
                           || (Inv(adj, r.state, stack) && r.state.visiting == s.visiting && v in r.state.list))
    decreases |adj.Keys - s.visited|, 0, 0
  {
    var s1 := Enter(s, v);
    assert adj.Keys - s1.visited == (adj.Keys - s.visited) - {v};
    EnterKeepsInvariant(adj, s, stack, v, parent);
    assert AllIn(adj[v][..0], s1.list);
    assert (stack + [v])[|stack + [v]| - 1] == v;
    VisitAdjacentKeepsInvariant(adj, f, v, parent, 0, s1, stack + [v]);
    VisitUnvisited(adj, f, v, parent, s);
    LeaveAfterAdjacents(adj, f, v, s, stack, VisitAdjacent(adj, f, v, parent, 0, s1));
  }

  /** Leaving `v` once the loop over its adjacents has kept the invariant on the longer path. */
  lemma LeaveAfterAdjacents(adj: Adj, f: Flags, v: string, s: State, stack: seq<string>, r1: Outcome)
    requires v in adj && v !in s.visiting
    requires r1.CycleFound? ==> HasCycle(adj)
    requires r1.Completed? ==>
      (f.allowCycle && HasCycle(adj))
      || (Inv(adj, r1.state, stack + [v]) && r1.state.visiting == Enter(s, v).visiting && AllIn(adj[v], r1.state.list))
    ensures var r := if r1.Completed? then Completed(Leave(r1.state, v)) else r1;
      && (r.CycleFound? ==> HasCycle(adj))
      && (r.Completed? ==> (f.allowCycle && HasCycle(adj))
                           || (Inv(adj, r.state, stack) && r.state.visiting == s.visiting && v in r.state.list))
  {
    if r1.Completed? && !(f.allowCycle && HasCycle(adj)) {
      assert Enter(s, v).visiting - {v} == s.visiting;
      LeaveKeepsInvariant(adj, r1.state, stack, v);
    }
  }

  lemma {:induction false} VisitAdjacentKeepsInvariant(adj: Adj, f: Flags, u: string, parent: Option<string>, i: nat, s: State, stack: seq<string>)
    requires Closed(adj) && u in adj && i <= |adj[u]| && f.directed && Inv(adj, s, stack)
    requires |stack| > 0 && stack[|stack| - 1] == u
    requires AllIn(adj[u][..i], s.list)
    ensures var r := VisitAdjacent(adj, f, u, parent, i, s);
      && (r.CycleFound? ==> HasCycle(adj))
      && (r.Completed? ==> (f.allowCycle && HasCycle(adj))
                           || (Inv(adj, r.state, stack) && r.state.visiting == s.visiting && AllIn(adj[u], r.state.list)))
    decreases |adj.Keys - s.visited|, 1, |adj[u]| - i
  {
    if i == |adj[u]| {
      assert adj[u][..i] == adj[u];
    } else {
      var a := adj[u][i];
      VisitKeepsInvariant(adj, f, a, Some(u), s, stack);
      var r1 := Visit(adj, f, a, Some(u), s);
      if r1.Completed? {
        SubsetSmaller(adj.Keys - r1.state.visited, adj.Keys - s.visited);
      }
      assert VisitAdjacent(adj, f, u, parent, i, s)
        == if r1.Completed? then VisitAdjacent(adj, f, u, parent, i + 1, r1.state) else r1;
      if r1.Completed? && !(f.allowCycle && HasCycle(adj)) {
        var s2 := r1.state;
        SubsetSmaller(adj.Keys - s2.visited, adj.Keys - s.visited);
        AllInGrows(adj[u], i, s.list, s2.list);
        VisitAdjacentKeepsInvariant(adj, f, u, parent, i + 1, s2, stack);
      }
    }
  }

  lemma {:induction false} VisitSourcesKeepsInvariant(adj: Adj, f: Flags, sources: seq<string>, i: nat, s: State)
    requires Closed(adj) && i <= |sources| && f.directed
    requires forall j :: 0 <= j < |sources| ==> sources[j] in adj
    requires Inv(adj, s, []) && s.visiting == {}
    requires forall j :: 0 <= j < i ==> sources[j] in s.visited
    ensures var r := VisitSources(adj, f, sources, i, s);
      && (r.CycleFound? ==> HasCycle(adj))
      && (r.Completed? ==> (f.allowCycle && HasCycle(adj))
                           || (Inv(adj, r.state, []) && r.state.visiting == {}
                               && forall j :: 0 <= j < |sources| ==> sources[j] in r.state.visited))
    decreases |sources| - i
  {
    if i < |sources| {
      VisitSourcesStep(adj, f, sources, i, s);
      if sources[i] in s.visited {
        VisitSourcesKeepsInvariant(adj, f, sources, i + 1, s);
      } else {
        VisitKeepsInvariant(adj, f, sources[i], None, s, []);
        var r1 := Visit(adj, f, sources[i], None, s);
        if r1.Completed? && !(f.allowCycle && HasCycle(adj)) {
          assert sources[i] in r1.state.visited && s.visited <= r1.state.visited;
          assert forall j :: 0 <= j < i + 1 ==> sources[j] in r1.state.visited;
          VisitSourcesKeepsInvariant(adj, f, sources, i + 1, r1.state);
        }
      }
    }
  }

  /** The position of the first occurrence of `x`. */
  function FirstIndex(list: seq<string>, x: string): (k: nat)
    requires x in list
    ensures k < |list| && list[k] == x && x !in list[..k]
  {
    if list[0] == x then 0 else 1 + FirstIndex(list[1..], x)
  }

  /** Along a path, first positions in a post-ordered list strictly decrease. */
  lemma {:induction false} PathDescends(adj: Adj, list: seq<string>, p: seq<string>)
    requires PostOrdered(adj, list) && IsPath(adj, p) && |p| >= 2 && p[0] in list
    ensures p[|p| - 1] in list && FirstIndex(list, p[|p| - 1]) < FirstIndex(list, p[0])
    decreases |p|
  {
    var k := FirstIndex(list, p[0]);
    assert p[1] in adj[list[k]];
    assert AllIn(adj[list[k]], list[..k]);
    assert p[1] in list[..k];
    var k1 := FirstIndex(list, p[1]);
    assert k1 < k by {
      var m :| 0 <= m < k && list[..k][m] == p[1];
      assert list[m] == p[1];
    }
    if |p| > 2 {
      PathDescends(adj, list, p[1..]);
    }
  }

  /** A post-ordered list holding every vertex rules out cycles. */
  lemma PostOrderedMeansAcyclic(adj: Adj, list: seq<string>)
    requires PostOrdered(adj, list) && forall x :: x in adj ==> x in list
    ensures !HasCycle(adj)
  {
    if p :| IsCycle(adj, p) {
      PathDescends(adj, list, p);
      assert false;
    }
  }

  /** The reverse of a duplicate-free post-ordered list is a topological order. */
  lemma ReversedPostOrderIsTopological(adj: Adj, list: seq<string>)
    requires PostOrdered(adj, list) && NoDuplicates(list)
    ensures TopologicallyOrdered(adj, Reverse(list))
  {
    var order := Reverse(list);
    var n := |list|;
    forall i, j | 0 <= i < n && 0 <= j < n && order[i] in adj && order[j] in adj[order[i]]
      ensures i < j
    {
      var a, b := n - 1 - i, n - 1 - j;
      assert list[a] == order[i] && list[b] == order[j];
      assert AllIn(adj[list[a]], list[..a]);
      assert order[j] in list[..a];
      var m :| 0 <= m < a && list[m] == order[j];
      assert m == b;
    }
  }

  // ----- Theorems about the whole search -----

  /** The adjacency `Search` runs over when sources default to every vertex. */
  predicate CoversAll(adj: Adj, sources: seq<string>) {
    (forall j :: 0 <= j < |sources| ==> sources[j] in adj) && forall x :: x in adj ==> x in sources
  }

  /**
   * On an acyclic graph a directed search from every vertex completes and
   * lists each vertex exactly once, after all of its adjacents.
   */
  lemma SearchListsEachVertexOnceAfterItsAdjacents(adj: Adj, allowCycle: bool, sources: seq<string>)
    requires Closed(adj) && CoversAll(adj, sources) && !HasCycle(adj)
    ensures Search(adj, Flags(true, allowCycle), sources, true).Completed?
    ensures var list := Search(adj, Flags(true, allowCycle), sources, true).state.list;
      NoDuplicates(list) && PostOrdered(adj, list) && (forall x :: x in list <==> x in adj)
  {
    VisitSourcesKeepsInvariant(adj, Flags(true, allowCycle), sources, 0, State({}, {}, []));
  }

  /** A directed search that forbids cycles throws exactly when the graph has a cycle. */
  lemma SearchThrowsIffCycle(adj: Adj, sources: seq<string>)
    requires Closed(adj) && CoversAll(adj, sources)
    ensures Search(adj, Flags(true, false), sources, true).CycleFound? <==> HasCycle(adj)
  {
    var f := Flags(true, false);
    VisitSourcesKeepsInvariant(adj, f, sources, 0, State({}, {}, []));
    var r := Search(adj, f, sources, true);
    if r.Completed? {
      PostOrderedMeansAcyclic(adj, r.state.list);
    }
  }

  /**
   * The reversed search list of an acyclic directed graph is a topological
   * order of all its vertices, whatever `AllowCycle` is.
   */
  lemma ReversedSearchIsTopologicalOrder(adj: Adj, allowCycle: bool, sources: seq<string>)
    requires Closed(adj) && CoversAll(adj, sources) && !HasCycle(adj)
    ensures Search(adj, Flags(true, allowCycle), sources, true).Completed?
    ensures var order := Reverse(Search(adj, Flags(true, allowCycle), sources, true).state.list);
      TopologicallyOrdered(adj, order) && NoDuplicates(order) && (forall x :: x in order <==> x in adj)
  {
    SearchListsEachVertexOnceAfterItsAdjacents(adj, allowCycle, sources);
    var list := Search(adj, Flags(true, allowCycle), sources, true).state.list;
    ReversedPostOrderIsTopological(adj, list);
    ReverseKeepsElements(list);
  }

  /** Reversing a list keeps its elements, and keeps them distinct. */
  lemma ReverseKeepsElements(list: seq<string>)
    ensures forall x :: x in Reverse(list) <==> x in list
    ensures NoDuplicates(list) ==> NoDuplicates(Reverse(list))
  {
    var order := Reverse(list);
    forall x ensures x in order <==> x in list {
      if x in list {
        var k :| 0 <= k < |list| && list[k] == x;
        assert order[|list| - 1 - k] == x;
      }
    }
    if NoDuplicates(list) {
      forall i, j | 0 <= i < j < |order|
        ensures order[i] != order[j]
      {
        assert order[i] == list[|list| - 1 - i] && order[j] == list[|list| - 1 - j];
      }
    }
  }
}
