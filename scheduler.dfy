/**
 * The readiness, skip and drain rule of `_directedExec` in graphexec.js.
 *
 * Every step listens for the "done" event of each of its precedents (one
 * listener per precedent entry). A step starts its task once the sorted IDs
 * of the precedents it has heard equal its sorted precedent IDs; once an
 * error has been recorded it signals done at once without running. A task
 * that fails records its error and still signals done. The overall run
 * listens only on the leaves of the graph: it resolves when every leaf has
 * signalled with no error recorded, and rejects with the first error when a
 * leaf signals after a failure.
 *
 * Here the listeners become a state machine: `Complete` is the settling of
 * one running task, whose outcome is an input, and its done event is
 * delivered to the listeners through a queue of emitted events.
 */
module Scheduling {
  import Sorting
  import Traversal
  import opened Sequential

  /** The state of the promise the run awaits. */
  datatype Settlement = Pending | Resolved | Rejected(error: string)

  /** Every entry of `d` is in `h`. */
  predicate AllIn(d: seq<string>, h: set<string>) {
    forall u :: u in d ==> u in h
  }

  /**
   * The entries of the precedent list `d` whose done event has been heard
   * when the events heard are `h`: one entry per listener that has fired.
   */
  function Arrived(d: seq<string>, h: set<string>): (r: seq<string>)
    ensures |r| <= |d|
  {
    if d == [] then [] else (if d[0] in h then [d[0]] else []) + Arrived(d[1..], h)
  }

  /** When every entry has been heard, every entry has arrived. */
  lemma {:induction false} ArrivedAll(d: seq<string>, h: set<string>)
    requires AllIn(d, h)
    ensures Arrived(d, h) == d
  {
    if d != [] {
      ArrivedAll(d[1..], h);
      assert d == [d[0]] + d[1..];
    }
  }

  /** An entry not heard is missing from what has arrived. */
  lemma {:induction false} ArrivedMisses(d: seq<string>, h: set<string>, u: string)
    requires u in d && u !in h
    ensures |Arrived(d, h)| < |d|
  {
    if d[0] != u {
      ArrivedMisses(d[1..], h, u);
    }
  }

  /** A step has heard all of its precedents exactly when every entry has arrived. */
  lemma ArrivedAllIff(d: seq<string>, h: set<string>)
    ensures multiset(Arrived(d, h)) == multiset(d) <==> AllIn(d, h)
  {
    if AllIn(d, h) {
      ArrivedAll(d, h);
    } else {
      var u :| u in d && u !in h;
      ArrivedMisses(d, h, u);
      assert |multiset(Arrived(d, h))| < |multiset(d)|;
    }
  }

  /** Hearing `y` adds, on top of what had arrived, the entries that name `y`. */
  lemma {:induction false} ArrivedGrows(d: seq<string>, h: set<string>, y: string)
    requires y !in h
    ensures multiset(Arrived(d, h + {y})) == multiset(Arrived(d, h)) + multiset(Arrived(d, {y}))
  {
    if d != [] {
      ArrivedGrows(d[1..], h, y);
    }
  }

  /** Nothing arrives from events that no entry names. */
  lemma {:induction false} ArrivedNothing(d: seq<string>, h: set<string>)
    requires forall u :: u in d ==> u !in h
    ensures Arrived(d, h) == []
  {
    if d != [] {
      ArrivedNothing(d[1..], h);
    }
  }

  /**
   * The readiness test of `check_dependencies`: the IDs heard so far,
   * sorted, equal the precedent IDs, sorted.
   */
  predicate Ready(arrived: seq<string>, deps: seq<string>) {
    Sorting.SortBy(arrived, Sorting.Itself) == Sorting.SortBy(deps, Sorting.Itself)
  }

  /** The sorted comparison holds exactly when every precedent entry has arrived. */
  lemma ReadyIffAllHeard(arrived: seq<string>, deps: seq<string>, h: set<string>)
    requires multiset(arrived) == multiset(Arrived(deps, h))
    ensures Ready(arrived, deps) <==> AllIn(deps, h)
  {
    Sorting.SortedEqualIffSameElements(arrived, deps);
    ArrivedAllIff(deps, h);
  }

  /** Where a step is in its life. */
  datatype Status = Waiting | Running | Finished | Skipped {
    /** The step has emitted its done event. */
    predicate Signalled() {
      Finished? || Skipped?
    }
  }

  /**
   * A step with precedents `d` agrees with the events `h` delivered: it has
   * pushed exactly the entries heard, and it has left `Waiting` exactly when
   * all of its precedents have been heard.
   */
  ghost predicate Agrees(d: seq<string>, arrived: seq<string>, st: Status, h: set<string>) {
    multiset(arrived) == multiset(Arrived(d, h)) && (!st.Waiting? <==> AllIn(d, h))
  }

  /**
   * Task bookkeeping over the steps `deps`: every emitted event is waiting
   * in `queue` or delivered in `heard`, steps skip only after an error, and
   * a step that started its task did so after the tasks of all its
   * precedents finished.
   */
  ghost predicate TasksAgree(deps: map<string, seq<string>>, status: map<string, Status>, errors: seq<string>,
                             queue: seq<string>, heard: set<string>)
  {
    && status.Keys == deps.Keys
    && Traversal.NoDuplicates(queue)
    && (forall y :: y in queue ==> y in status && status[y].Signalled() && y !in heard)
    && (forall y :: y in heard ==> y in status && status[y].Signalled())
    && (forall y :: y in status && status[y].Signalled() ==> y in heard || y in queue)
    && (errors == [] ==> forall s :: s in status ==> !status[s].Skipped?)
    && (forall s :: s in status && (status[s].Running? || status[s].Finished?) ==> AllFinished(deps[s], status))
  }

  /** The listeners of every step of `deps` agree with the events `h` delivered. */
  ghost predicate ListenersAgree(deps: map<string, seq<string>>, started: map<string, seq<string>>,
                                 status: map<string, Status>, h: set<string>)
  {
    && started.Keys == deps.Keys && status.Keys == deps.Keys
    && (forall s {:trigger Agrees(deps[s], started[s], status[s], h)} :: s in deps ==> Agrees(deps[s], started[s], status[s], h))
  }

  /**
   * The running step `x` finishing its task, and its done event waiting
   * for delivery, keeps the bookkeeping, whether or not an error is added.
   */
  lemma FinishKeepsTasks(deps: map<string, seq<string>>, status: map<string, Status>, errors: seq<string>,
                         heard: set<string>, x: string, errors': seq<string>)
    requires TasksAgree(deps, status, errors, [], heard) && x in status && status[x].Running?
    requires errors' == [] ==> errors == []
    ensures x !in heard
    ensures TasksAgree(deps, status[x := Finished], errors', [x], heard)
  {
    var status' := status[x := Finished];
    forall s | s in status' && (status'[s].Running? || status'[s].Finished?)
      ensures AllFinished(deps[s], status')
    {
      assert AllFinished(deps[s], status);
    }
  }

  /** The running step `x` finishing keeps every listener in agreement. */
  lemma FinishKeepsListeners(deps: map<string, seq<string>>, started: map<string, seq<string>>,
                             status: map<string, Status>, h: set<string>, x: string)
    requires ListenersAgree(deps, started, status, h) && x in status && status[x].Running?
    ensures ListenersAgree(deps, started, status[x := Finished], h)
  {
    var status' := status[x := Finished];
    forall s | s in deps
      ensures Agrees(deps[s], started[s], status'[s], h)
    {
      AgreesWaiting(deps[s], started[s], status[s], status'[s], h);
    }
  }

  /** Whether the listeners agree depends on the status only through whether it is `Waiting`. */
  lemma AgreesWaiting(d: seq<string>, arrived: seq<string>, st: Status, st': Status, h: set<string>)
    requires Agrees(d, arrived, st, h) && st.Waiting? == st'.Waiting?
    ensures Agrees(d, arrived, st', h)
  {
  }

  /**
   * The waiting step `s`, once ready, starting its task or, after an error,
   * signalling done keeps the bookkeeping.
   */
  lemma ProceedKeepsTasks(deps: map<string, seq<string>>, status: map<string, Status>, errors: seq<string>,
                          queue: seq<string>, heard: set<string>, s: string, ready: bool)
    requires TasksAgree(deps, status, errors, queue, heard) && s in status && status[s].Waiting?
    requires ready ==> AllIn(deps[s], heard)
    ensures TasksAgree(deps, status[s := Next(ready, errors != [])], errors,
                       queue + (if ready && errors != [] then [s] else []), heard)
  {
    var status' := status[s := Next(ready, errors != [])];
    var queue' := queue + (if ready && errors != [] then [s] else []);
    assert s !in queue && s !in heard;
    forall t | t in status' && (status'[t].Running? || status'[t].Finished?)
      ensures AllFinished(deps[t], status')
    {
      if t != s {
        assert AllFinished(deps[t], status);
      } else {
        forall u | u in deps[s] ensures u in status' && status'[u].Finished? {
          assert u in heard;
        }
      }
    }
    if ready && errors != [] {
      forall i, j | 0 <= i < j < |queue'| ensures queue'[i] != queue'[j] {
        if j == |queue| {
          assert queue'[i] in queue;
        }
      }
    }
  }

  /** Steps with no precedent running and the others waiting keep the bookkeeping. */
  lemma InitialTasks(deps: map<string, seq<string>>, status: map<string, Status>)
    requires status.Keys == deps.Keys
    requires forall s :: s in deps ==> status[s] == if deps[s] == [] then Running else Waiting
    ensures TasksAgree(deps, status, [], [], {})
  {
  }

  /** The state the constructor sets up agrees with no event delivered. */
  lemma InitialAgrees(deps: map<string, seq<string>>, started: map<string, seq<string>>, status: map<string, Status>)
    requires started.Keys == deps.Keys && status.Keys == deps.Keys
    requires forall s :: s in deps ==> started[s] == [] && status[s] == if deps[s] == [] then Running else Waiting
    ensures TasksAgree(deps, status, [], [], {}) && ListenersAgree(deps, started, status, {})
  {
    InitialTasks(deps, status);
    forall s | s in deps
      ensures Agrees(deps[s], started[s], status[s], {})
    {
      ArrivedNothing(deps[s], {});
    }
  }

  /**
   * A step moves from `before` to `after` while done events are delivered:
   * a waiting step may start its task, unless `failed`, or skip it; no
   * other step changes.
   */
  predicate Advanced(before: Status, after: Status, failed: bool) {
    if before.Waiting? then !after.Finished? && (failed ==> !after.Running?) else after == before
  }

  /** Every step of `status0` has advanced to `status`. */
  ghost predicate AllAdvanced(status0: map<string, Status>, status: map<string, Status>, failed: bool) {
    status0.Keys <= status.Keys && forall s :: s in status0 ==> Advanced(status0[s], status[s], failed)
  }

  /** Advancing twice is advancing. */
  lemma AdvancedTwice(a: map<string, Status>, b: map<string, Status>, c: map<string, Status>, failed: bool)
    requires AllAdvanced(a, b, failed) && AllAdvanced(b, c, failed)
    ensures AllAdvanced(a, c, failed)
  {
    forall s | s in a ensures Advanced(a[s], c[s], failed) {
      assert Advanced(b[s], c[s], failed);
    }
  }

  /** The errors of the failed tasks among `completed`, in order. */
  function Failures(completed: seq<string>, run: string -> Done): (r: seq<string>)
    ensures r == [] <==> forall i :: 0 <= i < |completed| ==> run(completed[i]).Succeeded?
  {
    if completed == [] then []
    else
      var last := completed[|completed| - 1];
      Failures(completed[..|completed| - 1], run) + if run(last).Failed? then [run(last).message] else []
  }

  /**
   * The tasks of `completed` settled, in this order, since the state
   * `status0`, `errors0`: no finished step has changed since, the tasks
   * are exactly the steps that have finished since, and each added its
   * error if it failed.
   */
  ghost predicate SettledInOrder(deps: map<string, seq<string>>, status0: map<string, Status>, status: map<string, Status>,
                                 errors0: seq<string>, errors: seq<string>, completed: seq<string>, run: string -> Done)
  {
    && status0.Keys == deps.Keys && status.Keys == deps.Keys
    && Traversal.NoDuplicates(completed)
    && (forall s :: s in status0 && status0[s].Finished? ==> status[s].Finished?)
    && (forall s :: s in completed <==> s in deps && status[s].Finished? && !status0[s].Finished?)
    && errors == errors0 + Failures(completed, run)
  }

  /** The running step `x` settling, and the others advancing, extends the settled order by `x`. */
  lemma SettledOneMore(deps: map<string, seq<string>>, status0: map<string, Status>, status1: map<string, Status>,
                       status: map<string, Status>, errors0: seq<string>, errors1: seq<string>, errors: seq<string>,
                       completed: seq<string>, x: string, run: string -> Done)
    requires SettledInOrder(deps, status0, status1, errors0, errors1, completed, run)
    requires x in status1 && status1[x].Running? && status.Keys == deps.Keys && status[x].Finished?
    requires AllAdvanced(status1[x := Finished], status, errors != [])
    requires errors == errors1 + if run(x).Failed? then [run(x).message] else []
    ensures SettledInOrder(deps, status0, status, errors0, errors, completed + [x], run)
  {
    FinishedOnlyAt(status1, status, x, errors != []);
    SettledOnlyX(deps, status0, status1, status, errors0, errors1, errors, completed, x, run);
  }

  /** As `SettledOneMore`, once the only step to have newly finished is `x`. */
  lemma SettledOnlyX(deps: map<string, seq<string>>, status0: map<string, Status>, status1: map<string, Status>,
                     status: map<string, Status>, errors0: seq<string>, errors1: seq<string>, errors: seq<string>,
                     completed: seq<string>, x: string, run: string -> Done)
    requires SettledInOrder(deps, status0, status1, errors0, errors1, completed, run)
    requires x in status1 && status1[x].Running? && status.Keys == deps.Keys && status[x].Finished?
    requires forall s :: s in status1 && s != x ==> (status[s].Finished? <==> status1[s].Finished?)
    requires errors == errors1 + if run(x).Failed? then [run(x).message] else []
    ensures SettledInOrder(deps, status0, status, errors0, errors, completed + [x], run)
  {
    FailuresSnoc(completed, x, run);
    assert !status0[x].Finished? && x !in completed;
    var c := completed + [x];
    forall i, j | 0 <= i < j < |c| ensures c[i] != c[j] {
      if j == |completed| {
        assert c[i] in completed;
      }
    }
    forall s ensures s in c <==> s in deps && status[s].Finished? && !status0[s].Finished? {
      if s != x {
        assert s in c <==> s in completed;
      }
    }
    var tail := if run(x).Failed? then [run(x).message] else [];
    calc {
      errors0 + Failures(c, run);
      errors0 + (Failures(completed, run) + tail);
      { assert errors0 + (Failures(completed, run) + tail) == (errors0 + Failures(completed, run)) + tail; }
      errors1 + tail;
    }
  }

  /** One more settled task adds its error, if it failed. */
  lemma FailuresSnoc(completed: seq<string>, x: string, run: string -> Done)
    ensures Failures(completed + [x], run) == Failures(completed, run) + if run(x).Failed? then [run(x).message] else []
  {
    assert (completed + [x])[..|completed|] == completed;
  }

  /** After `x` finishes and the steps advance, the finished steps other than `x` are those that had finished. */
  lemma FinishedOnlyAt(status0: map<string, Status>, status: map<string, Status>, x: string, failed: bool)
    requires x in status0 && AllAdvanced(status0[x := Finished], status, failed)
    ensures forall s :: s in status0 && s != x ==> (status[s].Finished? <==> status0[s].Finished?)
  {
    forall s | s in status0 && s != x
      ensures status[s].Finished? <==> status0[s].Finished?
    {
      assert Advanced(status0[x := Finished][s], status[s], failed);
    }
  }

  /** Every step of `d` has finished its task. */
  ghost predicate AllFinished(d: seq<string>, status: map<string, Status>) {
    forall u :: u in d ==> u in status && status[u].Finished?
  }

  /** The state of a waiting step after its readiness check, given whether an error was recorded. */
  function Next(ready: bool, failed: bool): (v: Status)
    ensures v.Waiting? <==> !ready
    ensures v.Running? <==> ready && !failed
  {
    if !ready then Waiting else if failed then Skipped else Running
  }

  /** A step `s` with no listener on `y` still agrees with `y` delivered. */
  lemma NotListening(deps: map<string, seq<string>>, y: string, h: set<string>, heard: set<string>,
                     rest: set<string>, started: map<string, seq<string>>, status: map<string, Status>,
                     started0: map<string, seq<string>>, status0: map<string, Status>, errors: seq<string>, s: string)
    requires DeliveredTo(deps, y, h, heard, rest, started, status, started0, status0, errors)
    requires s in rest && y !in deps[s]
    ensures DeliveredTo(deps, y, h, heard, rest - {s}, started, status, started0, status0, errors)
  {
    assert Agrees(deps[s], started0[s], status0[s], h);
    ArrivedNothing(deps[s], {y});
    ArrivedGrows(deps[s], h, y);
    assert Agrees(deps[s], started[s], status[s], heard);
  }

  /**
   * The listeners on `y` of the steps of `deps` outside `rest` have run:
   * those steps agree with `heard`, the others are as in `started0`,
   * `status0`, which agreed with `h`, and every step has advanced from
   * `status0`.
   */
  ghost predicate DeliveredTo(deps: map<string, seq<string>>, y: string, h: set<string>, heard: set<string>,
                              rest: set<string>, started: map<string, seq<string>>, status: map<string, Status>,
                              started0: map<string, seq<string>>, status0: map<string, Status>, errors: seq<string>)
  {
    && rest <= deps.Keys && started.Keys == deps.Keys && status.Keys == deps.Keys
    && started0.Keys == deps.Keys && status0.Keys == deps.Keys
    && y !in h && heard == h + {y}
    && (forall s {:trigger Agrees(deps[s], started0[s], status0[s], h)} :: s in deps ==> Agrees(deps[s], started0[s], status0[s], h))
    && (forall s :: s in rest ==> started[s] == started0[s] && status[s] == status0[s])
    && (forall s {:trigger Agrees(deps[s], started[s], status[s], heard)} :: s in deps && s !in rest ==> Agrees(deps[s], started[s], status[s], heard))
    && (forall s :: s in status0 ==> Advanced(status0[s], status[s], errors != []))
  }

  /** The listeners of one more step `s` have run, leaving it with `st` and `v`. */
  lemma DeliveredStep(deps: map<string, seq<string>>, y: string, h: set<string>, heard: set<string>,
                      rest: set<string>, started: map<string, seq<string>>, status: map<string, Status>,
                      started0: map<string, seq<string>>, status0: map<string, Status>, errors: seq<string>,
                      s: string, st: seq<string>, v: Status)
    requires DeliveredTo(deps, y, h, heard, rest, started, status, started0, status0, errors) && s in rest
    requires Agrees(deps[s], st, v, heard)
    requires Advanced(status0[s], v, errors != [])
    ensures DeliveredTo(deps, y, h, heard, rest - {s}, started[s := st], status[s := v], started0, status0, errors)
  {
    AgreeingStep(deps, heard, rest, started, status, s, st, v);
  }

  /** The steps outside `rest` agree with `heard`, and so does `s` with `st` and `v`. */
  lemma AgreeingStep(deps: map<string, seq<string>>, heard: set<string>, rest: set<string>,
                     started: map<string, seq<string>>, status: map<string, Status>,
                     s: string, st: seq<string>, v: Status)
    requires started.Keys == deps.Keys && status.Keys == deps.Keys
    requires forall t {:trigger Agrees(deps[t], started[t], status[t], heard)} :: t in deps && t !in rest ==> Agrees(deps[t], started[t], status[t], heard)
    requires s in deps && Agrees(deps[s], st, v, heard)
    ensures var started', status' := started[s := st], status[s := v];
      forall t {:trigger Agrees(deps[t], started'[t], status'[t], heard)} :: t in deps && t !in rest - {s} ==> Agrees(deps[t], started'[t], status'[t], heard)
  {
    var started', status' := started[s := st], status[s := v];
    forall t | t in deps && t !in rest - {s}
      ensures Agrees(deps[t], started'[t], status'[t], heard)
    {
      if t != s {
        assert Agrees(deps[t], started[t], status[t], heard);
      }
    }
  }

  /**
   * `check_dependencies`: compares the sorted IDs heard with the sorted
   * precedent IDs.
   */
  method CheckDependencies(arrived: seq<string>, deps: seq<string>, ghost h: set<string>) returns (ready: bool)
    requires multiset(arrived) == multiset(Arrived(deps, h))
    ensures ready <==> AllIn(deps, h)
  {
    ReadyIffAllHeard(arrived, deps, h);
    ready := Ready(arrived, deps);
  }

  class Scheduler {
    /** Each step's precedent IDs, as `GetPrecedent` lists them: a vertex once per edge into the step. */
    const Deps: map<string, seq<string>>
    /** The IDs of the leaves the overall run listens on. */
    const Leaves: seq<string>

    /** The errors of the failed tasks, in the order they failed. */
    var errors: seq<string>
    /** For each step, the precedents whose done event its listeners have pushed. */
    var started: map<string, seq<string>>
    /** For each step, whether it waits, runs, has finished its task or has skipped it. */
    var status: map<string, Status>
    /** Done events emitted and not yet delivered to their listeners. */
    var queue: seq<string>
    /** Done events delivered to their listeners. */
    ghost var heard: set<string>
    /** The leaves whose done event the overall run has counted. */
    var leavesDone: seq<string>
    /** The promise of the overall run. */
    var settled: Settlement
    /** Set when a leaf signals after an error; blocks a later resolution. */
    var aborted: bool

    /**
     * Task bookkeeping: every emitted event is waiting or delivered, steps
     * skip only after an error, and a step that started its task did so
     * after the tasks of all its precedents finished.
     */
    ghost predicate Tasks()
      reads this`status, this`errors, this`queue, this`heard
    {
      TasksAgree(Deps, status, errors, queue, heard)
    }

    /** Every step's listeners agree with the events `h` delivered. */
    ghost predicate Listening(h: set<string>)
      reads this`started, this`status
    {
      ListenersAgree(Deps, started, status, h)
    }

    /** The leaf listeners agree with the events `h` delivered. */
    ghost predicate Settling(h: set<string>)
      reads this`leavesDone, this`settled, this`aborted, this`errors
    {
      && (forall x :: x in leavesDone ==> x in Leaves && x in h)
      && (errors == [] ==> forall l :: l in Leaves && l in h ==> l in leavesDone)
      && (settled.Rejected? ==> aborted && errors != [] && settled.error == errors[0])
      && (aborted ==> errors != [] && Leaves != [] && !settled.Pending?)
      && (settled.Resolved? ==> Leaves != [] && forall l :: l in Leaves ==> l in leavesDone)
      && (Leaves != [] && (forall l :: l in Leaves ==> l in h) ==> !settled.Pending?)
    }

    /** The invariant between any two deliveries of a done event. */
    ghost predicate Inv()
      reads this
    {
      Tasks() && Listening(heard) && Settling(heard)
    }

    /** Every step is awaited by the overall run. */
    predicate Covering() {
      Covers(Deps, Leaves)
    }

    /**
     * The invariant between task settlements: no event is waiting, and when
     * every step is awaited, a failure means rejection with the first error.
     */
    ghost predicate Valid()
      reads this
    {
      Inv() && queue == [] && (Covering() && errors != [] ==> settled == Rejected(errors[0]))
    }

    /**
     * Registers the listeners of every step and of the leaves, and starts
     * the task of each step with no precedent.
     */
    constructor (deps: map<string, seq<string>>, leaves: seq<string>)
      ensures Valid() && Deps == deps && Leaves == leaves
      ensures forall s :: s in deps ==> status[s] == if deps[s] == [] then Running else Waiting
      ensures errors == [] && settled == Pending && heard == {}
    {
      var st: map<string, seq<string>> := map[];
      var stat: map<string, Status> := map[];
      var rest := deps.Keys;
      while rest != {}
        invariant rest <= deps.Keys && st.Keys == deps.Keys - rest && stat.Keys == st.Keys
        invariant forall s :: s in st ==> st[s] == [] && stat[s] == if deps[s] == [] then Running else Waiting
        decreases rest
      {
        var s :| s in rest;
        rest := rest - {s};
        st := st[s := []];
        ArrivedNothing(deps[s], {});
        var ready := CheckDependencies(st[s], deps[s], {});
        stat := stat[s := if ready then Running else Waiting];
      }
      InitialAgrees(deps, st, stat);
      Deps, Leaves := deps, leaves;
      errors, started, status := [], st, stat;
      queue, heard, leavesDone, settled, aborted := [], {}, [], Pending, false;
      if leaves != [] {
        assert leaves[0] in leaves && leaves[0] !in {};
      }
    }

    /**
     * The task of the running step `x` settles with `d`: a failure records
     * its error, and `x` signals done. Steps whose precedents have now all
     * signalled start, or, after an error, signal done in turn; the leaf
     * listeners settle the overall run.
     */
    method Complete(x: string, d: Done)
      requires Valid() && x in status && status[x].Running?
      modifies this
      ensures Valid()
      ensures errors == old(errors) + (if d.Failed? then [d.message] else [])
      ensures status[x] == Finished && x in heard && x !in old(heard) && old(heard) <= heard
      ensures AllAdvanced(old(status)[x := Finished], status, errors != [])
      ensures !old(settled).Pending? ==> settled == old(settled)
      ensures errors != [] && old(settled).Pending? && (exists l :: l in Leaves && l in heard && l !in old(heard))
        ==> settled == Rejected(errors[0])
    {
      Finish(x, d);
      assert x !in heard;
      Cascade();
      if Covering() && errors != [] && old(errors) == [] {
        assert x in Leaves && x in heard && x !in old(heard);
      }
    }

    /** The task of `x` settles with `d`: `x` finishes and its done event waits for delivery. */
    method Finish(x: string, d: Done)
      requires Valid() && x in status && status[x].Running?
      modifies this`status, this`errors, this`queue
      ensures Inv() && queue == [x] && x !in heard
      ensures status == old(status)[x := Finished]
      ensures errors == old(errors) + (if d.Failed? then [d.message] else [])
      ensures started == old(started) && heard == old(heard) && leavesDone == old(leavesDone)
      ensures settled == old(settled) && aborted == old(aborted)
    {
      var errors' := if d.Failed? then errors + [d.message] else errors;
      FinishKeepsTasks(Deps, status, errors, heard, x, errors');
      FinishKeepsListeners(Deps, started, status, heard, x);
      status := status[x := Finished];
      errors := errors';
      queue := [x];
    }

    /**
     * Lets every running task settle, one at a time in any order, with the
     * outcome `run` gives it, until no task is running; returns the steps
     * whose tasks settled, in order.
     */
    method Drain(run: string -> Done) returns (completed: seq<string>)
      requires Valid()
      modifies this
      ensures Valid()
      ensures forall s :: s in status ==> !status[s].Running?
      ensures SettledInOrder(Deps, old(status), status, old(errors), errors, completed, run)
      ensures !old(settled).Pending? ==> settled == old(settled)
    {
      completed := [];
      while exists s :: s in status && status[s].Running?
        invariant Valid()
        invariant SettledInOrder(Deps, old(status), status, old(errors), errors, completed, run)
        invariant !old(settled).Pending? ==> settled == old(settled)
        decreases Deps.Keys - heard
      {
        completed := SettleOne(run, completed, old(status), old(errors), old(settled));
      }
    }

    /** One running task, any of them, settles with the outcome `run` gives it. */
    method SettleOne(run: string -> Done, completed: seq<string>, ghost status0: map<string, Status>,
                     ghost errors0: seq<string>, ghost settled0: Settlement)
      returns (completed': seq<string>)
      requires Valid() && exists s :: s in status && status[s].Running?
      requires SettledInOrder(Deps, status0, status, errors0, errors, completed, run)
      requires !settled0.Pending? ==> settled == settled0
      modifies this
      ensures Valid() && Deps.Keys - heard < old(Deps.Keys - heard)
      ensures SettledInOrder(Deps, status0, status, errors0, errors, completed', run)
      ensures !settled0.Pending? ==> settled == settled0
    {
      var x :| x in status && status[x].Running?;
      ghost var status1, errors1 := status, errors;
      Complete(x, run(x));
      completed' := completed + [x];
      SettledOneMore(Deps, status0, status1, status, errors0, errors1, errors, completed, x, run);
    }

    /** Delivers emitted done events until none is waiting. */
    method Cascade()
      requires Inv()
      modifies this`started, this`status, this`queue, this`heard, this`leavesDone, this`settled, this`aborted
      ensures Inv() && queue == [] && old(heard) <= heard
      ensures AllAdvanced(old(status), status, errors != [])
      ensures !old(settled).Pending? ==> settled == old(settled)
      ensures errors != [] && old(settled).Pending? && (exists l :: l in Leaves && l in heard && l !in old(heard))
        ==> settled == Rejected(errors[0])
    {
      while queue != []
        invariant Inv() && old(heard) <= heard
        invariant AllAdvanced(old(status), status, errors != [])
        invariant !old(settled).Pending? ==> settled == old(settled)
        invariant errors != [] && old(settled).Pending? && (exists l :: l in Leaves && l in heard && l !in old(heard))
          ==> settled == Rejected(errors[0])
        decreases Deps.Keys - heard
      {
        ghost var status1 := status;
        Hear();
        AdvancedTwice(old(status), status1, status, errors != []);
      }
    }

    /**
     * Delivers the first waiting done event: first to the listeners of the
     * steps that wait on it, then to the leaf listener.
     */
    method Hear()
      requires Inv() && queue != []
      modifies this`started, this`status, this`queue, this`heard, this`leavesDone, this`settled, this`aborted
      ensures Inv()
      ensures heard == old(heard) + {old(queue[0])} && old(queue[0]) !in old(heard) && old(queue[0]) in Deps
      ensures AllAdvanced(old(status), status, errors != []) && errors == old(errors)
      ensures !old(settled).Pending? ==> settled == old(settled)
      ensures errors != [] && old(settled).Pending? && old(queue[0]) in Leaves ==> settled == Rejected(errors[0])
    {
      var y;
      ghost var h;
      y, h := Pop();
      NotifySteps(y, h);
      NotifyLeaf(y, h);
    }

    /** Takes the first waiting done event `y` off the queue; `h` is what was delivered before. */
    method Pop() returns (y: string, ghost h: set<string>)
      requires Tasks() && queue != []
      modifies this`queue, this`heard
      ensures Tasks()
      ensures y == old(queue[0]) && queue == old(queue[1..]) && h == old(heard) && heard == h + {y}
      ensures y !in h && y in Deps
      ensures started == old(started) && status == old(status) && errors == old(errors)
      ensures leavesDone == old(leavesDone) && settled == old(settled) && aborted == old(aborted)
    {
      y, h := queue[0], heard;
      queue := queue[1..];
      heard := heard + {y};
    }

    /** The listeners that steps registered on `y`, in turn. */
    method NotifySteps(y: string, ghost h: set<string>)
      requires Tasks() && Listening(h) && y !in h && heard == h + {y}
      modifies this`started, this`status, this`queue
      ensures Tasks() && Listening(heard)
      ensures heard == old(heard) && errors == old(errors)
      ensures leavesDone == old(leavesDone) && settled == old(settled) && aborted == old(aborted)
      ensures AllAdvanced(old(status), status, errors != [])
    {
      ghost var started0, status0 := started, status;
      var rest := Deps.Keys;
      while rest != {}
        invariant Tasks() && Delivered(y, h, rest, started0, status0)
        decreases rest
      {
        var s :| s in rest;
        if y in Deps[s] {
          NotifyStep(s, y, h, rest, started0, status0);
        } else {
          NotListening(Deps, y, h, heard, rest, started, status, started0, status0, errors, s);
        }
        rest := rest - {s};
      }
    }

    /** The listeners of step `s` on its precedent `y`. */
    method NotifyStep(s: string, y: string, ghost h: set<string>, ghost rest: set<string>,
                      ghost started0: map<string, seq<string>>, ghost status0: map<string, Status>)
      requires Tasks() && Delivered(y, h, rest, started0, status0) && s in rest && y in Deps[s]
      modifies this`started, this`status, this`queue
      ensures Tasks() && Delivered(y, h, rest - {s}, started0, status0)
    {
      ghost var preStarted, preStatus := started, status;
      assert Agrees(Deps[s], started0[s], status0[s], h);
      assert !AllIn(Deps[s], h) by { assert y in Deps[s] && y !in h; }
      assert status0[s].Waiting?;
      var ready := Listen(s, y, h);
      Proceed(s, ready);
      DeliveredStep(Deps, y, h, heard, rest, preStarted, preStatus, started0, status0, errors,
                    s, preStarted[s] + Arrived(Deps[s], {y}), Next(ready, errors != []));
    }

    /**
     * The listeners on `y` of the steps outside `rest` have run, from the
     * state `started0`, `status0` in which the listeners agreed with `h`.
     */
    ghost predicate Delivered(y: string, h: set<string>, rest: set<string>,
                              started0: map<string, seq<string>>, status0: map<string, Status>)
      reads this`started, this`status, this`heard, this`errors
    {
      DeliveredTo(Deps, y, h, heard, rest, started, status, started0, status0, errors)
    }

    /**
     * The listeners step `s` registered on its precedent `y`: each pushes
     * `y`, then the step checks whether it is ready.
     */
    method Listen(s: string, y: string, ghost h: set<string>) returns (ready: bool)
      requires s in Deps && started.Keys == Deps.Keys && y in Deps[s] && y !in h && heard == h + {y}
      requires multiset(started[s]) == multiset(Arrived(Deps[s], h)) && Tasks()
      modifies this`started
      ensures Tasks()
      ensures started == old(started)[s := old(started)[s] + Arrived(Deps[s], {y})]
      ensures multiset(started[s]) == multiset(Arrived(Deps[s], heard))
      ensures ready <==> AllIn(Deps[s], heard)
      ensures status == old(status) && queue == old(queue) && errors == old(errors) && heard == old(heard)
    {
      started := started[s := started[s] + Arrived(Deps[s], {y})];
      ArrivedGrows(Deps[s], h, y);
      ready := CheckDependencies(started[s], Deps[s], heard);
    }

    /**
     * The waiting step `s`, once ready, starts its task, or, once an error
     * has been recorded, signals done without running.
     */
    method Proceed(s: string, ready: bool)
      requires Tasks() && s in Deps && status[s].Waiting? && (ready ==> AllIn(Deps[s], heard))
      modifies this`status, this`queue
      ensures Tasks()
      ensures status == old(status)[s := Next(ready, errors != [])]
      ensures queue == old(queue) + (if ready && errors != [] then [s] else [])
      ensures started == old(started) && errors == old(errors) && heard == old(heard)
    {
      ProceedKeepsTasks(Deps, status, errors, queue, heard, s, ready);
      status := status[s := Next(ready, errors != [])];
      if ready && errors != [] {
        queue := queue + [s];
      }
    }

    /** The leaf listener of the overall run, when `y` is a leaf. */
    method NotifyLeaf(y: string, ghost h: set<string>)
      requires Settling(h) && y !in h
      modifies this`leavesDone, this`settled, this`aborted
      ensures Settling(h + {y})
      ensures started == old(started) && status == old(status) && queue == old(queue)
      ensures heard == old(heard) && errors == old(errors)
      ensures !old(settled).Pending? ==> settled == old(settled)
      ensures errors != [] && old(settled).Pending? && y in Leaves ==> settled == Rejected(errors[0])
    {
      if y in Leaves {
        if errors != [] {
          aborted := true;
          if settled.Pending? {
            settled := Rejected(errors[0]);
          }
        } else {
          leavesDone := leavesDone + [y];
          if !aborted && forall l :: l in Leaves ==> l in leavesDone {
            if settled.Pending? {
              settled := Resolved;
            }
          }
        }
      }
    }
  }

  /** Every step of `deps` is awaited by the overall run. */
  predicate Covers(deps: map<string, seq<string>>, leaves: seq<string>) {
    forall s :: s in deps ==> s in leaves
  }

  /**
   * `order` lists the steps of `deps` once each, every step after each of
   * its precedents.
   */
  ghost predicate Layered(deps: map<string, seq<string>>, order: seq<string>) {
    && Traversal.NoDuplicates(order)
    && (forall s :: s in deps <==> s in order)
    && (forall i, u :: 0 <= i < |order| && u in deps[order[i]] ==> u in order[..i])
  }

  /** The steps of `deps` and their precedents form no cycle. */
  ghost predicate Acyclic(deps: map<string, seq<string>>) {
    exists order :: Layered(deps, order)
  }

  /**
   * With no event waiting and no task running, over steps without a
   * cycle, every step has signalled done and been heard.
   */
  lemma AllSignalled(deps: map<string, seq<string>>, started: map<string, seq<string>>, status: map<string, Status>,
                     errors: seq<string>, heard: set<string>, order: seq<string>)
    requires TasksAgree(deps, status, errors, [], heard) && ListenersAgree(deps, started, status, heard)
    requires Layered(deps, order) && forall s :: s in status ==> !status[s].Running?
    ensures forall s :: s in deps ==> status[s].Signalled() && s in heard
  {
    SignalledUpTo(deps, started, status, errors, heard, order, |order|);
    forall s | s in deps ensures status[s].Signalled() && s in heard {
      var i :| 0 <= i < |order| && order[i] == s;
    }
  }

  /** The first `n` steps of the order have been heard. */
  lemma {:induction false} SignalledUpTo(deps: map<string, seq<string>>, started: map<string, seq<string>>,
                                         status: map<string, Status>, errors: seq<string>, heard: set<string>,
                                         order: seq<string>, n: nat)
    requires TasksAgree(deps, status, errors, [], heard) && ListenersAgree(deps, started, status, heard)
    requires Layered(deps, order) && forall s :: s in status ==> !status[s].Running?
    requires n <= |order|
    ensures forall j :: 0 <= j < n ==> order[j] in heard
  {
    if n > 0 {
      SignalledUpTo(deps, started, status, errors, heard, order, n - 1);
      var s := order[n - 1];
      assert s in deps;
      assert AllIn(deps[s], heard) by {
        forall u | u in deps[s] ensures u in heard {
          assert u in order[..n - 1];
        }
      }
      assert Agrees(deps[s], started[s], status[s], heard);
    }
  }

  /** The first error of `completed` is that of its first failed task, all before which succeeded. */
  lemma {:induction false} FirstFailure(completed: seq<string>, run: string -> Done)
    requires Failures(completed, run) != []
    ensures exists i ::
      && 0 <= i < |completed|
      && run(completed[i]) == Failed(Failures(completed, run)[0])
      && (forall j :: 0 <= j < i ==> run(completed[j]).Succeeded?)
  {
    var init := completed[..|completed| - 1];
    if Failures(init, run) != [] {
      FirstFailure(init, run);
      var i :| 0 <= i < |init| && run(init[i]) == Failed(Failures(init, run)[0])
        && (forall j :: 0 <= j < i ==> run(init[j]).Succeeded?);
      assert completed[i] == init[i];
      assert Failures(completed, run)[0] == Failures(init, run)[0];
      assert forall j :: 0 <= j < i ==> completed[j] == init[j];
    } else {
      var i := |completed| - 1;
      assert forall j :: 0 <= j < i ==> completed[j] == init[j];
      assert Failures(completed, run) == [run(completed[i]).message];
      assert run(completed[i]) == Failed(Failures(completed, run)[0]);
    }
  }

  /**
   * `_directedExec`: starts the steps of `deps` with no precedent, lets the
   * tasks settle with the outcomes `run` gives them, in any order, until
   * none runs, and reports the state of the overall run's promise, the
   * errors recorded and the steps whose tasks ran, in order.
   *
   * Over steps without a cycle whose awaited leaves are among them, the
   * promise settles; it rejects only with the first error. When every step
   * is awaited, it resolves exactly when every task succeeds.
   */
  method DirectedExec(deps: map<string, seq<string>>, leaves: seq<string>, run: string -> Done)
    returns (settled: Settlement, errors: seq<string>, completed: seq<string>)
    ensures Traversal.NoDuplicates(completed) && forall s :: s in completed ==> s in deps
    ensures errors == Failures(completed, run)
    ensures settled.Rejected? ==> errors != [] && settled.error == errors[0]
    ensures settled.Resolved? ==> leaves != []
    ensures Acyclic(deps) && leaves != [] && (forall l :: l in leaves ==> l in deps) ==> !settled.Pending?
    ensures Acyclic(deps) && Covers(deps, leaves) && leaves != [] && (forall l :: l in leaves ==> l in deps) ==>
      && (settled.Resolved? <==> forall s :: s in deps ==> run(s).Succeeded?)
      && (!settled.Resolved? ==> errors != [] && settled == Rejected(errors[0]))
  {
    var sch := new Scheduler(deps, leaves);
    ghost var status0 := sch.status;
    assert forall s :: s in status0 ==> !status0[s].Finished?;
    completed := sch.Drain(run);
    settled, errors := sch.settled, sch.errors;
    if Acyclic(deps) {
      var order :| Layered(deps, order);
      AllSignalled(sch.Deps, sch.started, sch.status, sch.errors, sch.heard, order);
      if Covers(deps, leaves) && leaves != [] {
        CoveredOutcome(sch.Deps, sch.status, errors, completed, run);
      }
    }
  }

  /**
   * Once every step has signalled, from a start where none had finished:
   * with no error recorded every step ran its task, and then every task
   * succeeded; every task succeeding leaves no error.
   */
  lemma CoveredOutcome(deps: map<string, seq<string>>, status: map<string, Status>, errors: seq<string>,
                       completed: seq<string>, run: string -> Done)
    requires status.Keys == deps.Keys && forall s :: s in deps ==> status[s].Signalled()
    requires errors == [] ==> forall s :: s in status ==> !status[s].Skipped?
    requires forall s :: s in completed <==> s in deps && status[s].Finished?
    requires errors == Failures(completed, run)
    ensures errors == [] <==> forall s :: s in deps ==> run(s).Succeeded?
  {
    if errors == [] {
      forall s | s in deps ensures run(s).Succeeded? {
        assert s in completed;
        var i :| 0 <= i < |completed| && completed[i] == s;
      }
    }
  }

  /** A precedes B; C stands alone. */
  function ThreeSteps(): map<string, seq<string>> {
    map["A" := [], "B" := ["A"], "C" := []]
  }

  /** The three steps set up, awaited through `leaves`: A and C run, B waits. */
  method StartThree(leaves: seq<string>) returns (sch: Scheduler)
    ensures fresh(sch) && sch.Valid() && sch.Deps == ThreeSteps() && sch.Leaves == leaves
    ensures sch.errors == [] && sch.status == map["A" := Running, "B" := Waiting, "C" := Running]
  {
    sch := new Scheduler(ThreeSteps(), leaves);
    assert sch.status.Keys == {"A", "B", "C"};
  }

  /** A and B succeed in turn while C runs. */
  method SucceedAThenB(sch: Scheduler)
    requires sch.Valid() && sch.Deps == ThreeSteps() && sch.errors == []
    requires sch.status == map["A" := Running, "B" := Waiting, "C" := Running]
    modifies sch
    ensures sch.Valid() && sch.errors == [] && sch.status["C"].Running? && "B" in sch.heard
  {
    ghost var status0 := sch.status;
    sch.Complete("A", Succeeded);
    ghost var status1 := sch.status;
    assert status1["C"].Running? by {
      assert Advanced(status0["A" := Finished]["C"], status1["C"], false);
    }
    assert status1["B"].Running? by {
      assert Agrees(sch.Deps["B"], sch.started["B"], status1["B"], sch.heard);
      assert AllIn(sch.Deps["B"], sch.heard);
      assert Advanced(status0["A" := Finished]["B"], status1["B"], false);
    }
    sch.Complete("B", Succeeded);
    assert sch.status["C"].Running? by {
      assert Advanced(status1["B" := Finished]["C"], sch.status["C"], false);
    }
  }

  /**
   * As written, the overall run awaits only the leaves: A precedes B, C
   * stands alone, and B is the only leaf. When A and B succeed before C
   * fails, the run has already resolved, and C's error is recorded but
   * never reported.
   */
  method IsolatedFailureResolves() returns (settled: Settlement, errors: seq<string>)
    ensures settled == Resolved && errors == ["boom"]
  {
    var sch := StartThree(["B"]);
    SucceedAThenB(sch);
    sch.Complete("C", Failed("boom"));
    settled, errors := sch.settled, sch.errors;
  }

  /** A running step fails first while every step is awaited: the run is rejected with its error. */
  method FailCovered(sch: Scheduler, x: string)
    requires sch.Valid() && sch.Covering() && sch.errors == [] && x in sch.status && sch.status[x].Running?
    modifies sch
    ensures sch.settled == Rejected("boom") && sch.errors == ["boom"]
  {
    sch.Complete(x, Failed("boom"));
  }

  /**
   * The same steps and outcomes with every step awaited: C's failure
   * rejects the run with its error.
   */
  method AwaitingEveryStepRejects() returns (settled: Settlement, errors: seq<string>)
    ensures settled == Rejected("boom") && errors == ["boom"]
  {
    var sch := StartThree(["A", "B", "C"]);
    assert sch.Covering();
    SucceedAThenB(sch);
    FailCovered(sch, "C");
    settled, errors := sch.settled, sch.errors;
  }
}
