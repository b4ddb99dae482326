/**
 * `ExecAll` of graphexec.js: compile the steps of a digraph into one order,
 * then run the steps one at a time in that order, stopping at the first
 * step whose task fails. A task's outcome is an input, a function of the
 * step's ID: the subprocess the step starts is not part of this model.
 */
module Sequential {
  import opened Wrappers
  import opened Graphs
  import opened Executor
  import Traversal

  /** How a step's task ended: the promise of `Run` resolved, or rejected with an error. */
  datatype Done = Succeeded | Failed(message: string)

  /** Why a batch is rejected: the compiler threw, or a task failed. */
  datatype RunError = CompileError(error: GraphError) | TaskError(message: string)

  /** The steps a run started, in order, and how the run ended. */
  datatype Execution = Execution(ran: seq<string>, outcome: Outcome<RunError>)

  /**
   * The reference run of `order`: each step in turn, up to and including
   * the first whose task fails.
   */
  function RunInOrder(order: seq<string>, run: string -> Done): (e: Execution)
    ensures |e.ran| <= |order|
  {
    if order == [] then Execution([], Pass)
    else match run(order[0])
      case Failed(m) => Execution([order[0]], Fail(TaskError(m)))
      case Succeeded =>
        var rest := RunInOrder(order[1..], run);
        Execution([order[0]] + rest.ran, rest.outcome)
  }

  /** A run starts a prefix of the order. */
  lemma {:induction false} RunIsPrefix(order: seq<string>, run: string -> Done)
    ensures var e := RunInOrder(order, run); e.ran == order[..|e.ran|]
  {
    if order != [] && run(order[0]).Succeeded? {
      RunIsPrefix(order[1..], run);
      var rest := RunInOrder(order[1..], run);
      assert [order[0]] + order[1..][..|rest.ran|] == order[..|rest.ran| + 1];
    }
  }

  /** A run passes exactly when every step of the order succeeds, and then it has started them all. */
  lemma {:induction false} RunPassesIffAllSucceed(order: seq<string>, run: string -> Done)
    ensures var e := RunInOrder(order, run);
      && (e.outcome.Pass? <==> forall i :: 0 <= i < |order| ==> run(order[i]).Succeeded?)
      && (e.outcome.Pass? ==> e.ran == order)
  {
    if order != [] && run(order[0]).Succeeded? {
      RunPassesIffAllSucceed(order[1..], run);
      assert forall i :: 0 < i < |order| ==> order[i] == order[1..][i - 1];
      assert order == [order[0]] + order[1..];
    }
  }

  /**
   * A failed run ends at the failing step: every step it started before
   * the last one succeeded, and the last one's error is the run's.
   */
  lemma {:induction false} RunFailsAtLastStep(order: seq<string>, run: string -> Done)
    ensures var e := RunInOrder(order, run);
      e.outcome.Fail? ==>
        && e.ran != []
        && (forall i :: 0 <= i < |e.ran| - 1 ==> run(e.ran[i]).Succeeded?)
        && e.outcome.error.TaskError?
        && run(e.ran[|e.ran| - 1]) == Failed(e.outcome.error.message)
  {
    if order != [] && run(order[0]).Succeeded? {
      RunFailsAtLastStep(order[1..], run);
      var rest := RunInOrder(order[1..], run);
      var ran := [order[0]] + rest.ran;
      assert forall i :: 0 < i < |ran| ==> ran[i] == rest.ran[i - 1];
    }
  }

  /** The step loop of `ExecAll`: the tasks of `order`, awaited one at a time. */
  method RunSteps(order: seq<string>, run: string -> Done) returns (outcome: Outcome<RunError>, ran: seq<string>)
    ensures Execution(ran, outcome) == RunInOrder(order, run)
  {
    ran := [];
    for i := 0 to |order|
      invariant ran == order[..i]
      invariant RunInOrder(order, run) == Then(ran, RunInOrder(order[i..], run))
    {
      RunFrom(order, i, run);
      assert ran + ([order[i]] + RunInOrder(order[i + 1..], run).ran) == ran + [order[i]] + RunInOrder(order[i + 1..], run).ran;
      ran := ran + [order[i]];
      match run(order[i])
      case Failed(m) =>
        return Fail(TaskError(m)), ran;
      case Succeeded =>
    }
    assert order[|order|..] == [];
    outcome := Pass;
  }

  /** The run from step `i` on: that step, then, if it succeeded, the run from step `i + 1`. */
  lemma RunFrom(order: seq<string>, i: nat, run: string -> Done)
    requires i < |order|
    ensures RunInOrder(order[i..], run)
      == if run(order[i]).Failed? then Execution([order[i]], Fail(TaskError(run(order[i]).message)))
         else Then([order[i]], RunInOrder(order[i + 1..], run))
  {
    assert order[i..][1..] == order[i + 1..];
  }

  /** The steps `done` started before `e`, all of which succeeded. */
  function Then(done: seq<string>, e: Execution): Execution {
    Execution(done + e.ran, e.outcome)
  }

  /**
   * `ExecAll` over the steps of a digraph: the compiler's error rejects the
   * batch before any step runs; otherwise the steps run in the compiled
   * order until one fails.
   */
  method ExecAll(list: seq<Step>, run: string -> Done)
    returns (outcome: Outcome<RunError>, ran: seq<string>, order: Result<seq<string>, GraphError>, ghost links: seq<(string, string)>)
    modifies list
    ensures links == Links(old(RefsOf(list)), IdSet(list)) && NormalizedFrom(list, old(RefsOf(list)))
    ensures StepsCompiledAs(list, old(RefsOf(list)), order, links)
    ensures order.Err? ==> outcome == Fail(CompileError(order.error)) && ran == []
    ensures order.Ok? ==> Execution(ran, outcome) == RunInOrder(order.value, run)
  {
    order, links := CompileSteps(list);
    if order.Err? {
      return Fail(CompileError(order.error)), [], order, links;
    }
    outcome, ran := RunSteps(order.value, run);
  }

  /**
   * Over an acyclic step graph, a step runs only after every step it
   * depends on: whenever `ExecAll` starts a step, each step linked before
   * it has already run.
   */
  lemma DependenciesRunFirst(list: seq<Step>, rs: seq<StepRefs>, links: seq<(string, string)>, order: seq<string>, run: string -> Done)
    requires |list| > 1 && |rs| == |list| && forall i :: 0 <= i < |list| ==> rs[i].id == list[i].Id
    requires links == Links(rs, IdSet(list)) && StepsCompiledAs(list, rs, Ok(order), links)
    requires !Traversal.HasCycle(StepGraph(rs))
    ensures var ran := RunInOrder(order, run).ran;
      forall j, u :: 0 <= j < |ran| && (u, ran[j]) in links ==> u in ran[..j]
  {
    RunIsPrefix(order, run);
    assert forall i :: 0 <= i < |list| ==> rs[i].id in IdSet(list);
    LinksMembers(rs, IdSet(list));
    PrefixRespectsLinks(order, links, RunInOrder(order, run).ran);
  }

  /** A prefix of an order that respects `links`, each of whose sources is in the order, holds every source before its target. */
  lemma PrefixRespectsLinks(order: seq<string>, links: seq<(string, string)>, ran: seq<string>)
    requires |ran| <= |order| && ran == order[..|ran|] && RespectsLinks(order, links)
    requires forall l :: l in links ==> l.0 in order
    ensures forall j, u :: 0 <= j < |ran| && (u, ran[j]) in links ==> u in ran[..j]
  {
    forall j, u | 0 <= j < |ran| && (u, ran[j]) in links
      ensures u in ran[..j]
    {
      assert ran[j] == order[j];
      var i :| 0 <= i < |order| && order[i] == u;
      assert i < j;
      assert ran[..j][i] == u;
    }
  }

}
