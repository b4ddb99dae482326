/**
 * `ParallelExecAll` of graphexec.js: compile the steps of a digraph; when
 * the compiled graph has a topological order, run the steps under the
 * readiness rule of `_directedExec`, and otherwise (a lone step, or steps
 * that name no other) fall back to the sequential `ExecAll`.
 */
module Parallel {
  import opened Wrappers
  import opened Graphs
  import opened Graphing
  import opened Executor
  import opened Sequential
  import Scheduling
  import Traversal

  /** The promise of a batch once every event has been handled: still pending, resolved, or rejected with or without a reason. */
  datatype Promise = Unsettled | Resolved | Rejected(reason: Option<RunError>)

  /** The batch's promise for a settlement of `_directedExec`: a task's error becomes the reason. */
  function Settles(s: Scheduling.Settlement): Promise {
    match s
    case Pending => Unsettled
    case Resolved => Resolved
    case Rejected(e) => Rejected(Some(TaskError(e)))
  }

  /** Every listed step's task succeeds. */
  predicate AllSucceed(list: seq<Step>, run: string -> Done) {
    forall i :: 0 <= i < |list| ==> run(list[i].Id).Succeeded?
  }

  /** The compiled graph has an order to run in: a lone step or none, or distinct IDs with at least one link. */
  predicate Sortable(list: seq<Step>, links: seq<(string, string)>) {
    |list| <= 1 || (Repeated(StepIds(list)).None? && links != [])
  }

  /** The precedent IDs `_directedExec` reads from each vertex of the sort, keyed by step ID. */
  method Precedence(g: Graph, order: seq<string>) returns (deps: map<string, seq<string>>)
    requires g.Valid()
    ensures forall s :: s in deps <==> s in order && s in g.Vertices
    ensures forall s :: s in deps ==> deps[s] == Ids(PrecedentOf(g.Vertices[s], g.Vertices[s].Edges))
  {
    deps := map[];
    for i := 0 to |order|
      invariant forall s :: s in deps <==> s in order[..i] && s in g.Vertices
      invariant forall s :: s in deps ==> deps[s] == Ids(PrecedentOf(g.Vertices[s], g.Vertices[s].Edges))
    {
      if order[i] in g.Vertices {
        var up := g.Vertices[order[i]].GetPrecedent();
        deps := deps[order[i] := Ids(up)];
      }
      assert order[..i + 1] == order[..i] + [order[i]];
    }
    assert order[..|order|] == order;
  }

  /**
   * An order of every step that puts each link's source first is a
   * layering of the precedents, so the steps form no cycle.
   */
  lemma LinkedOrderLayered(deps: map<string, seq<string>>, order: seq<string>, links: seq<(string, string)>)
    requires Traversal.NoDuplicates(order) && RespectsLinks(order, links)
    requires forall s :: s in deps <==> s in order
    requires forall u, s :: s in deps ==> (u in deps[s] <==> (u, s) in links)
    requires forall l :: l in links ==> l.0 in order
    ensures Scheduling.Layered(deps, order) && Scheduling.Acyclic(deps)
  {
    forall i, u | 0 <= i < |order| && u in deps[order[i]]
      ensures u in order[..i]
    {
      assert (u, order[i]) in links;
      var j :| 0 <= j < |order| && order[j] == u;
      assert j < i;
      assert order[..i][j] == u;
    }
    assert Scheduling.Layered(deps, order);
  }

  /** Rewriting references that are already rewritten adds the same links. */
  lemma {:induction false} RewrittenLinks(rs: seq<StepRefs>, now: seq<StepRefs>, keys: set<string>)
    requires |now| == |rs| && forall i :: 0 <= i < |rs| ==> now[i] == StepRefs(rs[i].id, Normal(rs[i].up), Normal(rs[i].down))
    ensures Links(now, keys) == Links(rs, keys)
  {
    if rs != [] {
      var n := |rs| - 1;
      RewrittenLinks(rs[..n], now[..n], keys);
      NormalIdempotent(rs[n].up);
      NormalIdempotent(rs[n].down);
    }
  }

  /**
   * `_directedExec` over the compiled graph `g` and its sort `order`,
   * awaiting the steps `leaves`: each step waits on the precedents its
   * vertex reports.
   */
  method Directed(g: Graph, order: seq<string>, leaves: seq<string>, run: string -> Done)
    returns (p: Promise, ran: seq<string>, deps: map<string, seq<string>>)
    requires g.Valid()
    ensures forall s :: s in deps <==> s in order && s in g.Vertices
    ensures forall s :: s in deps ==> deps[s] == Ids(PrecedentOf(g.Vertices[s], g.Vertices[s].Edges))
    ensures Traversal.NoDuplicates(ran) && forall s :: s in ran ==> s in deps
    ensures p.Rejected? ==> Scheduling.Failures(ran, run) != [] && p == Rejected(Some(TaskError(Scheduling.Failures(ran, run)[0])))
    ensures p.Resolved? ==> leaves != []
    ensures Scheduling.Acyclic(deps) && leaves != [] && (forall l :: l in leaves ==> l in deps) ==> !p.Unsettled?
    ensures Scheduling.Acyclic(deps) && Scheduling.Covers(deps, leaves) && leaves != [] && (forall l :: l in leaves ==> l in deps) ==>
      (p.Resolved? <==> forall s :: s in deps ==> run(s).Succeeded?)
  {
    deps := Precedence(g, order);
    var settled, errors;
    settled, errors, ran := Scheduling.DirectedExec(deps, leaves, run);
    p := Settles(settled);
  }

  /**
   * The fallback `ExecAll(name)`. The source fetches the steps afresh with
   * `GetDiGraph(name)` and compiles them; the model hands it the steps the
   * first compilation rewrote instead. The two agree because the rewrite
   * changes nothing a second time (`Executor.NormalIdempotent`) and keeps
   * the links (`RewrittenLinks`). A lone step (or none) runs on its own,
   * and two or more steps without a link are refused before any runs.
   */
  method Fallback(list: seq<Step>, run: string -> Done, ghost rs: seq<StepRefs>, ghost links: seq<(string, string)>)
    returns (outcome: Outcome<RunError>, ran: seq<string>)
    requires |rs| == |list| && forall i :: 0 <= i < |list| ==> rs[i].id == list[i].Id
    requires NormalizedFrom(list, rs) && links == Links(rs, IdSet(list))
    requires |list| <= 1 || (Repeated(StepIds(list)).None? && links == [])
    modifies list
    ensures NormalizedFrom(list, rs)
    ensures |list| <= 1 ==> ran == StepIds(list) && (outcome.Pass? <==> AllSucceed(list, run))
    ensures |list| == 1 && outcome.Fail? ==> outcome.error == TaskError(run(list[0].Id).message)
    ensures |list| > 1 ==> outcome == Fail(CompileError(NotMeaningful)) && ran == []
  {
    RewrittenLinks(rs, RefsOf(list), IdSet(list));
    var order;
    ghost var again;
    outcome, ran, order, again := ExecAll(list, run);
    forall i | 0 <= i < |list|
      ensures list[i].Upstream == Normal(rs[i].up) && list[i].Downstream == Normal(rs[i].down)
    {
      NormalIdempotent(rs[i].up);
      NormalIdempotent(rs[i].down);
    }
    if |list| == 1 {
      assert order.value == [list[0].Id];
      RunPassesIffAllSucceed(order.value, run);
    }
  }

  /**
   * `ParallelExecAll` as written: a compiler error rejects with no reason;
   * a graph with a topological order runs under `_directedExec`, awaiting
   * the leaves of the graph; with no order it awaits `ExecAll` and then
   * returns without settling its own promise.
   */
  method ParallelExecAll(list: seq<Step>, run: string -> Done) returns (p: Promise, ran: seq<string>, ghost links: seq<(string, string)>)
    modifies list
    ensures links == Links(old(RefsOf(list)), IdSet(list)) && NormalizedFrom(list, old(RefsOf(list)))
    ensures |list| > 1 && Repeated(StepIds(list)).Some? ==> p == Rejected(None) && ran == []
    ensures |list| <= 1 ==> p == Unsettled && ran == StepIds(list)
    ensures |list| > 1 && Repeated(StepIds(list)).None? && links == [] ==> p == Unsettled && ran == []
    ensures Traversal.NoDuplicates(ran) && forall s :: s in ran ==> s in IdSet(list)
    ensures p.Rejected? && p.reason.Some? && p.reason.value.TaskError? ==>
      Scheduling.Failures(ran, run) != [] && p.reason == Some(TaskError(Scheduling.Failures(ran, run)[0]))
    ensures |list| > 1 && Repeated(StepIds(list)).None? && links != [] && !Traversal.HasCycle(StepGraph(old(RefsOf(list)))) ==>
      !p.Unsettled? && (AllSucceed(list, run) ==> p == Resolved)
    ensures p.Rejected? ==> (p.reason.None? <==> |list| > 1 && Repeated(StepIds(list)).Some?) && (p.reason.Some? ==> p.reason.value.TaskError?)
    ensures p.Resolved? ==> HasSink(links)
  {
    ghost var rs := RefsOf(list);
    var compiled;
    compiled, links := CompileGraph(list);
    match compiled
    case Err(_) =>
      p, ran := Rejected(None), [];
    case Ok(Single(_)) =>
      var _, r := Fallback(list, run, rs, links);
      p, ran := Unsettled, r;
    case Ok(Multi(g, _)) =>
      p, ran := RunCompiled(list, g, run, rs, links, false);
  }

  /**
   * The rest of `ParallelExecAll` for two or more distinct steps: sort the
   * compiled graph; with no order fall back to `ExecAll` (settling with its
   * outcome when `settle` is set, and never settling otherwise); with one,
   * run `_directedExec`, awaiting every step when `settle` is set and the
   * leaves of the graph otherwise.
   */
  method RunCompiled(list: seq<Step>, g: Graph, run: string -> Done, ghost rs: seq<StepRefs>, ghost links: seq<(string, string)>, settle: bool)
    returns (p: Promise, ran: seq<string>)
    requires |list| > 1 && Repeated(StepIds(list)).None? && g.Order == StepIds(list) && Shaped(g, links)
    requires |rs| == |list| && (forall i :: 0 <= i < |list| ==> rs[i].id == list[i].Id) && links == Links(rs, IdSet(list))
    requires NormalizedFrom(list, rs)
    modifies list
    ensures NormalizedFrom(list, rs)
    ensures links == [] ==> ran == [] && p == (if settle then Rejected(Some(CompileError(NotMeaningful))) else Unsettled)
    ensures Traversal.NoDuplicates(ran) && forall s :: s in ran ==> s in IdSet(list)
    ensures p.Rejected? && p.reason.Some? && p.reason.value.TaskError? ==>
      Scheduling.Failures(ran, run) != [] && p.reason == Some(TaskError(Scheduling.Failures(ran, run)[0]))
    ensures settle && links != [] && !Traversal.HasCycle(StepGraph(rs)) ==>
      !p.Unsettled? && (p.Resolved? <==> AllSucceed(list, run))
    ensures links != [] && !Traversal.HasCycle(StepGraph(rs)) ==>
      !p.Unsettled? && (AllSucceed(list, run) ==> p == Resolved)
    ensures !settle && p.Rejected? ==> p.reason.Some? && p.reason.value.TaskError?
    ensures !settle && p.Resolved? ==> HasSink(links)
  {
    var sorted := SortBuilt(list, g, links, rs);
    assert NormalizedFrom(list, rs);
    if sorted.Err? {
      var outcome;
      outcome, ran := Fallback(list, run, rs, links);
      p := if settle then Rejected(Some(outcome.error)) else Unsettled;
      return;
    }
    ghost var acyclic := !Traversal.HasCycle(StepGraph(rs));
    SortFacts(list, g, rs, links, sorted.value);
    assert sorted.Ok? ==> links != [];
    p, ran := RunSorted(list, g, sorted.value, run, links, acyclic, settle);
    assert unchanged(list);
  }

  /** What the sort of the compiled graph gives `_directedExec`: the vertices are the steps, each link leaves a step, and without a cycle the sort lists every step once with each link's source first. */
  lemma SortFacts(list: seq<Step>, g: Graph, rs: seq<StepRefs>, links: seq<(string, string)>, order: seq<string>)
    requires |list| > 1 && g.Order == StepIds(list) && g.Valid()
    requires |rs| == |list| && (forall i :: 0 <= i < |list| ==> rs[i].id == list[i].Id) && links == Links(rs, IdSet(list))
    requires StepsCompiledAs(list, rs, Ok(order), links)
    ensures g.Vertices.Keys == IdSet(list) && forall l :: l in links ==> l.0 in IdSet(list)
    ensures !Traversal.HasCycle(StepGraph(rs)) ==>
      Traversal.NoDuplicates(order) && (forall x :: x in order <==> x in IdSet(list)) && RespectsLinks(order, links)
  {
    OrderKeys(list, g, rs);
    LinksMembers(rs, IdSet(list));
    forall l | l in links ensures l.0 in IdSet(list) {
      assert (l.0, l.1) in links;
    }
  }

  /**
   * `_directedExec` over the sort `order` of the compiled graph, awaiting
   * every step when `settle` is set and the leaves otherwise; `acyclic`
   * says the steps form no cycle, so that the sort lists every step once
   * with each link's source first.
   */
  method RunSorted(list: seq<Step>, g: Graph, order: seq<string>, run: string -> Done, ghost links: seq<(string, string)>, ghost acyclic: bool, settle: bool)
    returns (p: Promise, ran: seq<string>)
    requires list != [] && g.Valid() && Precedents(g, links) && g.Vertices.Keys == IdSet(list)
    requires Successors(g, links) && (g.AnyDirected() <==> links != [])
    requires forall l :: l in links ==> l.0 in IdSet(list)
    requires links != []
    requires acyclic ==> Traversal.NoDuplicates(order) && (forall x :: x in order <==> x in IdSet(list)) && RespectsLinks(order, links)
    ensures Traversal.NoDuplicates(ran) && forall s :: s in ran ==> s in IdSet(list)
    ensures p.Rejected? ==> Scheduling.Failures(ran, run) != [] && p == Rejected(Some(TaskError(Scheduling.Failures(ran, run)[0])))
    ensures settle && acyclic ==>
      !p.Unsettled? && (p.Resolved? <==> AllSucceed(list, run))
    ensures acyclic ==>
      !p.Unsettled? && (AllSucceed(list, run) ==> p == Resolved)
    ensures !settle && p.Resolved? ==> HasSink(links)
  {
    var leaves := order;
    if !settle {
      leaves := AwaitedLeaves(g, links, order, acyclic);
    }
    var deps;
    p, ran, deps := Directed(g, order, leaves, run);
    if acyclic {
      SortedLayered(list, g, links, order, deps);
      if settle {
        EveryStepSucceeds(deps, list, run);
      }
      if AllSucceed(list, run) {
        NoFailureAmong(ran, list, run);
      }
    }
  }

  /**
   * The IDs of the leaves of the compiled graph, which `_directedExec`
   * awaits: steps of the graph, at least one when the steps form no
   * cycle, and each a step that a link leads to and none leaves.
   */
  method AwaitedLeaves(g: Graph, ghost links: seq<(string, string)>, ghost order: seq<string>, ghost acyclic: bool) returns (leaves: seq<string>)
    requires Shaped(g, links) && links != [] && forall l :: l in links ==> l.0 in g.Vertices
    requires acyclic ==> (forall x :: x in order <==> x in g.Vertices) && RespectsLinks(order, links)
    ensures forall l :: l in leaves ==> l in g.Vertices
    ensures acyclic ==> leaves != []
    ensures leaves != [] ==> HasSink(links)
  {
    var vertices := g.GetLeaves();
    leaves := Ids(vertices);
    StoredIds(g, vertices);
    if acyclic {
      LeafExists(g, links, order, vertices);
    }
    if vertices != [] {
      assert vertices[0] in vertices;
      LeafIsSink(g, links, vertices[0]);
      assert HasSink(links);
    }
  }

  /** When every listed step succeeds, no step run from the list failed. */
  lemma NoFailureAmong(ran: seq<string>, list: seq<Step>, run: string -> Done)
    requires forall s :: s in ran ==> s in IdSet(list)
    requires AllSucceed(list, run)
    ensures Scheduling.Failures(ran, run) == []
  {
    forall k | 0 <= k < |ran| ensures run(ran[k]).Succeeded? {
      assert ran[k] in IdSet(list);
      var i :| 0 <= i < |list| && list[i].Id == ran[k];
    }
  }

  /** A step some link leads to. */
  ghost predicate IsHead(s: string, links: seq<(string, string)>) {
    exists u :: (u, s) in links
  }

  /** Some step that a link leads to has no link leaving it: the compiled graph has a leaf. */
  ghost predicate HasSink(links: seq<(string, string)>) {
    exists x :: IsHead(x, links) && forall y :: (x, y) !in links
  }

  /** A leaf of a compiled graph with a link is a step a link leads to and none leaves. */
  lemma LeafIsSink(g: Graph, links: seq<(string, string)>, v: Vertex)
    requires Shaped(g, links) && links != []
    requires v in g.Vertices.Values && IsLeaf(v, g.AnyDirected())
    ensures IsHead(v.ID, links) && forall y :: (v.ID, y) !in links
  {
    var id :| id in g.Vertices && g.Vertices[id] == v;
    PrecedentOfMembers(v, v.Edges);
    AdjacentOfMembers(v, v.Edges);
    var before := Ids(PrecedentOf(v, v.Edges));
    assert before[0] in before;
    assert |g.Adjacency()[id]| == 0;
  }

  /**
   * Read from the back, an order that puts each link's source first ends
   * its run of steps some link leads to with one that no link leaves.
   */
  lemma {:induction false} LastHead(order: seq<string>, links: seq<(string, string)>, k: nat) returns (x: string)
    requires k <= |order| && RespectsLinks(order, links)
    requires forall l :: l in links ==> l.1 in order
    requires forall m :: k <= m < |order| ==> !IsHead(order[m], links)
    requires exists m :: 0 <= m < k && IsHead(order[m], links)
    ensures x in order && IsHead(x, links) && forall y :: (x, y) !in links
    decreases k
  {
    if IsHead(order[k - 1], links) {
      x := order[k - 1];
      forall y ensures (x, y) !in links {
        if y in order {
          var m :| 0 <= m < |order| && order[m] == y;
          assert (x, y) in links ==> k - 1 < m;
        }
      }
    } else {
      x := LastHead(order, links, k - 1);
    }
  }

  /**
   * A compiled graph with a link and without a cycle has a leaf: the last
   * step of the sort that a link leads to has precedents and no successor.
   */
  lemma LeafExists(g: Graph, links: seq<(string, string)>, order: seq<string>, vertices: seq<Vertex>)
    requires Shaped(g, links) && links != [] && forall l :: l in links ==> l.0 in g.Vertices
    requires (forall x :: x in order <==> x in g.Vertices) && RespectsLinks(order, links)
    requires forall v :: v in vertices <==> v in g.Vertices.Values && IsLeaf(v, g.AnyDirected())
    ensures vertices != []
  {
    HeadsListed(g, links, order);
    SomeHead(order, links);
    var x := LastHead(order, links, |order|);
    SinkIsLeaf(g, links, x);
    assert g.Vertices[x] in vertices;
  }

  /** The IDs of vertices stored in a graph are its keys. */
  lemma StoredIds(g: Graph, vertices: seq<Vertex>)
    requires g.Valid() && forall v :: v in vertices ==> v in g.Vertices.Values
    ensures forall x :: x in Ids(vertices) ==> x in g.Vertices
  {
    forall x | x in Ids(vertices) ensures x in g.Vertices {
      var j :| 0 <= j < |vertices| && Ids(vertices)[j] == x;
      assert vertices[j] in vertices;
      var id :| id in g.Vertices && g.Vertices[id] == vertices[j];
    }
  }

  /** With a link whose head the order lists, some step of the order is a head. */
  lemma SomeHead(order: seq<string>, links: seq<(string, string)>)
    requires links != [] && forall l :: l in links ==> l.1 in order
    ensures exists m :: 0 <= m < |order| && IsHead(order[m], links)
  {
    assert links[0] in links;
    var m :| 0 <= m < |order| && order[m] == links[0].1;
    assert IsHead(order[m], links);
  }

  /** Every step a link leads to is a vertex of the compiled graph, so the sort lists it. */
  lemma HeadsListed(g: Graph, links: seq<(string, string)>, order: seq<string>)
    requires Shaped(g, links) && forall l :: l in links ==> l.0 in g.Vertices
    requires forall x :: x in order <==> x in g.Vertices
    ensures forall l :: l in links ==> l.1 in order
  {
    forall l | l in links ensures l.1 in order {
      assert l.1 in g.Adjacency()[l.0];
    }
  }

  /** A step of the compiled graph that a link leads to and none leaves is a leaf. */
  lemma SinkIsLeaf(g: Graph, links: seq<(string, string)>, x: string)
    requires Shaped(g, links) && links != []
    requires x in g.Vertices && IsHead(x, links) && forall y :: (x, y) !in links
    ensures IsLeaf(g.Vertices[x], g.AnyDirected())
  {
    var v := g.Vertices[x];
    var u :| (u, x) in links;
    assert u in Ids(PrecedentOf(v, v.Edges));
    PrecedentOfMembers(v, v.Edges);
    AdjacentOfMembers(v, v.Edges);
    var after := Ids(AdjacentOf(v, v.Edges));
    assert forall k :: 0 <= k < |after| ==> after[k] in g.Adjacency()[x];
    assert |after| == 0;
  }


  /**
   * Over steps without a cycle, the precedents read from the graph over
   * its sort are keyed by every step and layered by the sort.
   */
  lemma SortedLayered(list: seq<Step>, g: Graph, links: seq<(string, string)>, order: seq<string>, deps: map<string, seq<string>>)
    requires list != [] && Precedents(g, links) && g.Vertices.Keys == IdSet(list)
    requires forall l :: l in links ==> l.0 in IdSet(list)
    requires Traversal.NoDuplicates(order) && (forall x :: x in order <==> x in IdSet(list)) && RespectsLinks(order, links)
    requires forall s :: s in deps <==> s in order && s in g.Vertices
    requires forall s :: s in deps ==> deps[s] == Ids(PrecedentOf(g.Vertices[s], g.Vertices[s].Edges))
    ensures Scheduling.Acyclic(deps) && Scheduling.Covers(deps, order) && order != []
    ensures (forall l :: l in order ==> l in deps) && (forall s :: s in deps <==> s in IdSet(list))
  {
    assert forall u, s :: s in deps ==> (u in deps[s] <==> (u, s) in links);
    LinkedOrderLayered(deps, order, links);
    assert list[0].Id in IdSet(list);
  }

  /** Every step of `deps` succeeds exactly when every listed step does, for `deps` keyed by the step IDs. */
  lemma EveryStepSucceeds(deps: map<string, seq<string>>, list: seq<Step>, run: string -> Done)
    requires forall s :: s in deps <==> s in IdSet(list)
    ensures (forall s :: s in deps ==> run(s).Succeeded?) <==> AllSucceed(list, run)
  {
    if AllSucceed(list, run) {
      forall s | s in deps ensures run(s).Succeeded? {
        var i :| 0 <= i < |list| && list[i].Id == s;
      }
    }
  }

  /**
   * `ParallelExecAll` with the fallback settling the batch with the outcome
   * of `ExecAll`, and `_directedExec` awaiting every step rather than the
   * leaves, and the sort refusing a cycle (`AllowCycle: false`) so that
   * steps that form one are rejected with the sort's error before any
   * runs. It always settles; over steps without a cycle it resolves
   * exactly when the steps compile to an order and every task succeeds.
   */
  method ParallelExecAllSettled(list: seq<Step>, run: string -> Done) returns (p: Promise, ran: seq<string>, ghost links: seq<(string, string)>)
    modifies list
    ensures links == Links(old(RefsOf(list)), IdSet(list)) && NormalizedFrom(list, old(RefsOf(list)))
    ensures |list| > 1 && Repeated(StepIds(list)).Some? ==> p == Rejected(None) && ran == []
    ensures |list| > 1 && Repeated(StepIds(list)).None? && links == [] ==> p == Rejected(Some(CompileError(NotMeaningful))) && ran == []
    ensures |list| <= 1 ==> ran == StepIds(list) && !p.Unsettled? && (p.Resolved? <==> AllSucceed(list, run))
    ensures Traversal.NoDuplicates(ran) && forall s :: s in ran ==> s in IdSet(list)
    ensures p.Rejected? && p.reason.Some? && p.reason.value.TaskError? ==>
      Scheduling.Failures(ran, run) != [] && p.reason == Some(TaskError(Scheduling.Failures(ran, run)[0]))
    ensures !Traversal.HasCycle(StepGraph(old(RefsOf(list)))) ==>
      !p.Unsettled? && (p.Resolved? <==> Sortable(list, links) && AllSucceed(list, run))
    ensures |list| > 1 && Repeated(StepIds(list)).None? && links != [] && Traversal.HasCycle(StepGraph(old(RefsOf(list)))) ==>
      ran == [] && p.Rejected? && p.reason.Some? && p.reason.value.CompileError? && p.reason.value.error.CycleExists?
    ensures !p.Unsettled?
  {
    ghost var rs := RefsOf(list);
    var compiled;
    compiled, links := CompileGraph(list);
    match compiled
    case Err(_) =>
      p, ran := Rejected(None), [];
    case Ok(Single(_)) =>
      var outcome;
      outcome, ran := Fallback(list, run, rs, links);
      p := if outcome.Pass? then Resolved else Rejected(Some(outcome.error));
    case Ok(Multi(g, _)) =>
      p, ran := RunRefusingCycles(list, g, run, rs, links);
  }

  /**
   * The corrected rest of `ParallelExecAll` for two or more distinct steps:
   * steps that form a cycle are rejected with the sort's error before any
   * runs; otherwise as `RunCompiled`, settling with the fallback's outcome
   * and awaiting every step.
   */
  method RunRefusingCycles(list: seq<Step>, g: Graph, run: string -> Done, ghost rs: seq<StepRefs>, ghost links: seq<(string, string)>)
    returns (p: Promise, ran: seq<string>)
    requires |list| > 1 && Repeated(StepIds(list)).None? && g.Order == StepIds(list) && Shaped(g, links)
    requires |rs| == |list| && (forall i :: 0 <= i < |list| ==> rs[i].id == list[i].Id) && links == Links(rs, IdSet(list))
    requires NormalizedFrom(list, rs)
    modifies list
    ensures NormalizedFrom(list, rs)
    ensures links == [] ==> ran == [] && p == Rejected(Some(CompileError(NotMeaningful)))
    ensures Traversal.NoDuplicates(ran) && forall s :: s in ran ==> s in IdSet(list)
    ensures p.Rejected? && p.reason.Some? && p.reason.value.TaskError? ==>
      Scheduling.Failures(ran, run) != [] && p.reason == Some(TaskError(Scheduling.Failures(ran, run)[0]))
    ensures links != [] && !Traversal.HasCycle(StepGraph(rs)) ==> !p.Unsettled? && (p.Resolved? <==> AllSucceed(list, run))
    ensures links != [] && Traversal.HasCycle(StepGraph(rs)) ==>
      ran == [] && p.Rejected? && p.reason.Some? && p.reason.value.CompileError? && p.reason.value.error.CycleExists?
  {
    var strict := SortRefusingCycles(list, g, rs, links);
    if strict.Err? && strict.error.CycleExists? {
      assert links != [] && Traversal.HasCycle(StepGraph(rs));
      p, ran := Rejected(Some(CompileError(strict.error))), [];
      return;
    }
    assert NormalizedFrom(list, rs) && Shaped(g, links);
    p, ran := RunCompiled(list, g, run, rs, links, true);
  }

  /**
   * `TopologicalSort({ AllowCycle: false })` on the compiled graph: with no
   * link it refuses the undirected graph as "not meaningful"; otherwise it
   * throws "Cycle exists" exactly when the steps form a cycle.
   */
  method SortRefusingCycles(list: seq<Step>, g: Graph, ghost rs: seq<StepRefs>, ghost links: seq<(string, string)>)
    returns (r: Result<seq<string>, GraphError>)
    requires |list| > 1 && g.Order == StepIds(list) && Shaped(g, links)
    requires |rs| == |list| && (forall i :: 0 <= i < |list| ==> rs[i].id == list[i].Id) && links == Links(rs, IdSet(list))
    ensures links == [] ==> r == Err(NotMeaningful)
    ensures links != [] ==> (r.Err? <==> Traversal.HasCycle(StepGraph(rs))) && (r.Err? ==> r.error.CycleExists?)
  {
    var opt := SearchOptions(None, None, Some(false), None, None);
    r := g.TopologicalSort(opt);
    ghost var adj := g.Adjacency();
    assert Traversal.CoversAll(adj, g.Order);
    if links != [] {
      CycleSearchOver(adj, g.Order, opt.(TopologicalSorting := Some(true)));
      OrderKeys(list, g, rs);
      BuiltCycles(g, links, rs);
    }
  }

  /** A digraph of one step whose task succeeds: the step runs, and the batch never settles. */
  method LoneStepNeverSettles() returns (p: Promise, ran: seq<string>)
    ensures p == Unsettled && ran == ["build"]
  {
    var step := new Step("build", "app", Absent, Absent);
    ghost var links;
    p, ran, links := ParallelExecAll([step], _ => Succeeded);
  }

  /** The same digraph when the fallback settles with the outcome of `ExecAll`: the batch resolves. */
  method LoneStepResolves() returns (p: Promise, ran: seq<string>)
    ensures p == Resolved && ran == ["build"]
  {
    var step := new Step("build", "app", Absent, Absent);
    ghost var links;
    p, ran, links := ParallelExecAllSettled([step], _ => Succeeded);
  }

  /** Two steps that name no other: nothing runs, and the batch never settles. */
  method UnlinkedPairNeverSettles() returns (p: Promise, ran: seq<string>)
    ensures p == Unsettled && ran == []
  {
    var a := new Step("a", "app", Absent, Absent);
    var b := new Step("b", "lib", Absent, Absent);
    ghost var refs := [StepRefs("a", Absent, Absent), StepRefs("b", Absent, Absent)];
    assert RefsOf([a, b]) == refs;
    assert Links(refs, {"a", "b"}) == [] by {
      assert refs[..1][..0] == [];
    }
    assert IdSet([a, b]) == {"a", "b"};
    assert StepIds([a, b]) == ["a", "b"] && Traversal.NoDuplicates(["a", "b"]);
    ghost var links;
    p, ran, links := ParallelExecAll([a, b], _ => Succeeded);
  }

  /**
   * Two steps that each name the other downstream: the sort succeeds, the
   * graph has no leaf to await, and the batch never settles.
   */
  method CyclicPairNeverSettles() returns (p: Promise, ran: seq<string>)
    ensures p == Unsettled
  {
    var x := new Step("x", "app", Absent, One("y"));
    var y := new Step("y", "lib", Absent, One("x"));
    ghost var refs := [StepRefs("x", Absent, One("y")), StepRefs("y", Absent, One("x"))];
    assert RefsOf([x, y]) == refs;
    assert IdSet([x, y]) == {"x", "y"};
    assert StepIds([x, y]) == ["x", "y"] && Traversal.NoDuplicates(["x", "y"]);
    ghost var links;
    var run: string -> Done := _ => Succeeded;
    p, ran, links := ParallelExecAll([x, y], run);
    assert links == Links(refs, {"x", "y"});
    PairLinked(refs);
    assert Scheduling.Failures(ran, run) == [];
  }

  /**
   * The same two steps when the sort refuses a cycle: the batch is
   * rejected with the sort's "Cycle exists" error before any step runs.
   */
  method CyclicPairRejected() returns (p: Promise, ran: seq<string>)
    ensures ran == [] && p.Rejected? && p.reason.Some? && p.reason.value.CompileError? && p.reason.value.error.CycleExists?
  {
    var x := new Step("x", "app", Absent, One("y"));
    var y := new Step("y", "lib", Absent, One("x"));
    ghost var refs := [StepRefs("x", Absent, One("y")), StepRefs("y", Absent, One("x"))];
    assert RefsOf([x, y]) == refs;
    assert IdSet([x, y]) == {"x", "y"};
    assert StepIds([x, y]) == ["x", "y"] && Traversal.NoDuplicates(["x", "y"]);
    ghost var links;
    p, ran, links := ParallelExecAllSettled([x, y], _ => Succeeded);
    assert links == Links(refs, {"x", "y"});
    PairCyclic(refs);
  }

  /** The references of the cyclic pair make a link and a cycle `x`, `y`, `x`. */
  lemma PairCyclic(refs: seq<StepRefs>)
    requires refs == [StepRefs("x", Absent, One("y")), StepRefs("y", Absent, One("x"))]
    ensures Links(refs, {"x", "y"}) != [] && Traversal.HasCycle(StepGraph(refs))
  {
    LinksMembers(refs, {"x", "y"});
    assert StepRefers(refs[0], "x", "y") && StepRefers(refs[1], "y", "x");
    var links := Links(refs, {"x", "y"});
    assert ("x", "y") in links && ("y", "x") in links;
    var keys := set i | 0 <= i < |refs| :: refs[i].id;
    assert refs[0].id == "x" && refs[1].id == "y";
    assert keys == {"x", "y"};
    var adj := StepGraph(refs);
    assert "y" in adj["x"] && "x" in adj["y"];
    CycleOfTwo(adj, "x", "y");
  }

  /** Two vertices each adjacent to the other form a cycle. */
  lemma CycleOfTwo(adj: Traversal.Adj, a: string, b: string)
    requires a in adj && b in adj && b in adj[a] && a in adj[b]
    ensures Traversal.HasCycle(adj)
  {
    var p := [a, b, a];
    assert forall i :: 0 <= i < |p| - 1 ==> p[i] in adj && p[i + 1] in adj[p[i]];
    assert Traversal.IsCycle(adj, p);
  }

  /** The references of the cyclic pair link `x` and `y` both ways, and nothing else. */
  lemma PairLinked(refs: seq<StepRefs>)
    requires refs == [StepRefs("x", Absent, One("y")), StepRefs("y", Absent, One("x"))]
    ensures !HasSink(Links(refs, {"x", "y"}))
  {
    LinksMembers(refs, {"x", "y"});
    assert StepRefers(refs[0], "x", "y") && StepRefers(refs[1], "y", "x");
    NoSinkInPair(Links(refs, {"x", "y"}), "x", "y");
  }

  /** Links that only join two steps, both ways, leave no sink. */
  lemma NoSinkInPair(links: seq<(string, string)>, a: string, b: string)
    requires (a, b) in links && (b, a) in links
    requires forall u, s :: (u, s) in links ==> s == a || s == b
    ensures !HasSink(links)
  {
    forall h | IsHead(h, links) ensures exists z :: (h, z) in links {
      var u :| (u, h) in links;
      assert (h, if h == a then b else a) in links;
    }
  }
}
