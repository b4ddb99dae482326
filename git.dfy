/**
 * The decisions the command handlers of git.js take around the git
 * subprocesses: the projects a command runs on (`_processHandler`), the
 * remote a handler falls back to, the `done` counter that ends the process
 * once every project has finished, the commands `run` executes for a
 * project, and the options `sync` and `clone` derive for each project.
 * Probing the file system and running commands are inputs: whether a
 * repository exists and is bare, and whether a command line succeeds.
 */
module Git {
  import opened Wrappers
  import Configuration
  import GitCommands

  /** A value of a project's `commands` object: a string, an array of command lines, or any other value. */
  datatype Entry = Line(s: string) | Lines(items: seq<string>) | OtherEntry

  /** The fields of a loaded project the handlers read. */
  datatype Project = Project(name: string, path: string, git: bool, commands: Option<map<string, Entry>>)

  // ----- Project selection -----

  /** The copies of `p` the inner loop of `_processHandler` pushes: one for each requested name equal to its name. */
  function Matches(p: Project, names: seq<string>): (r: seq<Project>)
    ensures forall q :: q in r ==> q == p
  {
    if names == [] then []
    else Matches(p, names[..|names| - 1]) + (if names[|names| - 1] == p.name then [p] else [])
  }

  /** How many times `x` occurs in `s`. */
  function Count<T(==)>(s: seq<T>, x: T): nat {
    if s == [] then 0 else Count(s[..|s| - 1], x) + (if s[|s| - 1] == x then 1 else 0)
  }

  lemma {:induction false} CountAppend<T>(a: seq<T>, b: seq<T>, x: T)
    ensures Count(a + b, x) == Count(a, x) + Count(b, x)
    decreases |b|
  {
    if b == [] {
      assert a + b == a;
    } else {
      var init := b[..|b| - 1];
      assert (a + b)[..|a + b| - 1] == a + init;
      CountAppend(a, init, x);
    }
  }

  lemma {:induction false} CountIn<T>(s: seq<T>, x: T)
    ensures Count(s, x) > 0 <==> x in s
  {
    if s != [] {
      var init := s[..|s| - 1];
      assert s == init + [s[|s| - 1]];
      CountIn(init, x);
    }
  }

  /** The projects a list of names selects, in configuration order, each once per request of its name. */
  function Picked(all: seq<Project>, names: seq<string>): seq<Project> {
    if all == [] then [] else Picked(all[..|all| - 1], names) + Matches(all[|all| - 1], names)
  }

  /** A project is selected exactly when it is configured and its name is requested. */
  lemma {:induction false} PickedMembers(all: seq<Project>, names: seq<string>, q: Project)
    ensures q in Picked(all, names) <==> q in all && q.name in names
  {
    if all != [] {
      var init := all[..|all| - 1];
      var last := all[|all| - 1];
      var m := Matches(last, names);
      assert all == init + [last];
      assert Picked(all, names) == Picked(init, names) + m;
      PickedMembers(init, names, q);
      MatchesCount(last, names, q);
      CountIn(names, q.name);
      CountIn(m, q);
    }
  }

  /**
   * The projects the `project` option selects: "*", a value that is neither
   * a string nor an array, or no value select every project; a name is a
   * list of one name.
   */
  function Selection(all: seq<Project>, project: Configuration.Arg): seq<Project> {
    match project
    case Str(s) => if s == "*" then all else Picked(all, [s])
    case Strs(names) => Picked(all, names)
    case _ => all
  }

  /** How many times a project appears in the selection: once per request of its name, or once when every project is selected. */
  function Requests(project: Configuration.Arg, name: string): nat {
    match project
    case Str(s) => if s == "*" then 1 else Count([s], name)
    case Strs(names) => Count(names, name)
    case _ => 1
  }

  /** Selecting from configured projects one after another concatenates the selections, so configuration order is kept. */
  lemma {:induction false} PickedAppend(a: seq<Project>, b: seq<Project>, names: seq<string>)
    ensures Picked(a + b, names) == Picked(a, names) + Picked(b, names)
    decreases |b|
  {
    if b == [] {
      assert a + b == a;
    } else {
      var init := b[..|b| - 1];
      var last := b[|b| - 1];
      assert (a + b)[..|a + b| - 1] == a + init;
      assert (a + b)[|a + b| - 1] == last;
      var m := Matches(last, names);
      calc {
        Picked(a + b, names);
        Picked(a + init, names) + m;
        { PickedAppend(a, init, names); }
        Picked(a, names) + Picked(init, names) + m;
        Picked(a, names) + (Picked(init, names) + m);
        Picked(a, names) + Picked(b, names);
      }
    }
  }

  /** Each configured project is selected once per occurrence in the configuration and per request of its name. */
  lemma {:induction false} PickedCount(all: seq<Project>, names: seq<string>, p: Project)
    ensures Count(Picked(all, names), p) == Count(all, p) * Count(names, p.name)
  {
    if all != [] {
      var init := all[..|all| - 1];
      var last := all[|all| - 1];
      PickedCount(init, names, p);
      CountAppend(Picked(init, names), Matches(last, names), p);
      MatchesCount(last, names, p);
      var k := Count(names, p.name);
      var one := if last == p then 1 else 0;
      assert Count(all, p) == Count(init, p) + one;
      Distribute(Count(init, p), one, k);
    }
  }

  lemma Distribute(x: nat, y: nat, k: nat)
    ensures (x + y) * k == x * k + y * k
  {
  }

  /** The copies of one project count once per request of its name. */
  lemma {:induction false} MatchesCount(last: Project, names: seq<string>, p: Project)
    ensures Count(Matches(last, names), p) == if last == p then Count(names, p.name) else 0
  {
    if names != [] {
      var init := names[..|names| - 1];
      MatchesCount(last, init, p);
      CountAppend(Matches(last, init), if names[|names| - 1] == last.name then [last] else [], p);
      assert Count([last], p) == Count([], p) + (if last == p then 1 else 0);
    }
  }

  /** The selection holds every project it should, as often as it should, and nothing else. */
  lemma SelectionCount(all: seq<Project>, project: Configuration.Arg, p: Project)
    ensures Count(Selection(all, project), p) == Count(all, p) * Requests(project, p.name)
  {
    match project
    case Str(s) =>
      if s != "*" {
        PickedCount(all, [s], p);
      }
    case Strs(names) =>
      PickedCount(all, names, p);
    case _ =>
  }

  /** `_processHandler`'s selection: copies of the projects, in configuration order, one per matching requested name. */
  method SelectProjects(all: seq<Project>, project: Configuration.Arg) returns (projects: seq<Project>)
    ensures projects == Selection(all, project)
  {
    var names: seq<string>;
    var listed := false;
    if project.Str? {
      if project.s == "*" {
        return all;
      }
      names, listed := [project.s], true;
    } else if project.Strs? {
      names, listed := project.items, true;
    }
    if !listed {
      return all;
    }
    projects := [];
    for i := 0 to |all|
      invariant projects == Picked(all[..i], names)
    {
      assert all[..i + 1][..i] == all[..i];
      ghost var before := projects;
      for j := 0 to |names|
        invariant projects == before + Matches(all[i], names[..j])
      {
        assert names[..j + 1][..j] == names[..j];
        if names[j] == all[i].name {
          projects := projects + [all[i]];
        }
      }
      assert names[..|names|] == names;
    }
    assert all[..|all|] == all;
  }

  // ----- The remote -----

  /** The remote a handler uses: the option when it is a non-empty string, "origin" when it is empty or not a string. */
  function RemoteName(remote: Configuration.Arg): (r: string)
    ensures r != ""
    ensures r == "origin" || remote == Configuration.Str(r)
    ensures remote.Str? && remote.s != "" ==> r == remote.s
  {
    if remote.Str? && remote.s != "" then remote.s else "origin"
  }

  // ----- Completion -----

  /** The exit code after these completions: 1 once any project finished with a non-zero code, and 0 until then. */
  function ExitCode(codes: seq<int>): (c: int)
    ensures c == 0 || c == 1
    ensures c == 1 <==> exists i :: 0 <= i < |codes| && codes[i] != 0
  {
    if codes == [] then 0
    else
      var init := codes[..|codes| - 1];
      assert forall i :: 0 <= i < |init| ==> init[i] == codes[i];
      if codes[|codes| - 1] != 0 then 1 else ExitCode(init)
  }

  /**
   * Where a counter expecting `total` completions has ended the process
   * after these completions: at the completion that brings the count to
   * `total`, unless the handler asked not to exit.
   */
  function Exit(total: nat, noExit: bool, codes: seq<int>): Option<int> {
    if noExit || total == 0 || |codes| < total then None else Some(ExitCode(codes[..total]))
  }

  /** The `done` closure of a handler, with the completions it has counted. */
  class Completion {
    const total: nat
    const noExit: bool
    var completed: nat
    var exitCode: int
    var exited: Option<int>
    ghost var codes: seq<int>

    ghost predicate Valid()
      reads this
    {
      && completed == |codes|
      && exitCode == ExitCode(codes)
      && exited == Exit(total, noExit, codes)
    }

    constructor (total: nat, noExit: bool)
      ensures Valid() && codes == []
      ensures this.total == total && this.noExit == noExit
    {
      this.total := total;
      this.noExit := noExit;
      completed := 0;
      exitCode := 0;
      exited := None;
      codes := [];
    }

    /** `done(code)`: a non-zero code sets the exit code to 1 for good; the completion that reaches the total ends the process. */
    method Done(code: int)
      requires Valid()
      modifies this
      ensures Valid() && codes == old(codes) + [code]
    {
      if code != 0 {
        exitCode := 1;
      }
      completed := completed + 1;
      codes := codes + [code];
      assert codes[..|codes| - 1] == old(codes);
      if completed == total && !noExit {
        exited := Some(exitCode);
        assert codes[..total] == codes;
      } else if total < completed {
        assert codes[..total] == old(codes)[..total];
      }
    }
  }

  /** A counter fed these completions in order. */
  method Finish(total: nat, noExit: bool, codes: seq<int>) returns (exited: Option<int>)
    ensures exited == Exit(total, noExit, codes)
  {
    var c := new Completion(total, noExit);
    for i := 0 to |codes|
      invariant c.Valid() && c.codes == codes[..i]
    {
      c.Done(codes[i]);
      assert codes[..i + 1] == codes[..i] + [codes[i]];
    }
    assert codes[..|codes|] == codes;
    exited := c.exited;
  }

  /** A counter expecting the selected projects ends the process after the last, with 1 exactly when one of them failed. */
  lemma SelectedTotalExits(all: seq<Project>, project: Configuration.Arg, codes: seq<int>)
    requires |codes| == |Selection(all, project)| > 0
    ensures Exit(|Selection(all, project)|, false, codes) == Some(ExitCode(codes))
    ensures ExitCode(codes) == 1 <==> exists i :: 0 <= i < |codes| && codes[i] != 0
  {
    assert codes[..|codes|] == codes;
  }

  /**
   * `_cloneHandler`, `_pullHandler` and `_syncHandler` count against every
   * configured project: when fewer are selected, the count never reaches
   * the total and the exit code, 1 after a failure, is never reported.
   */
  lemma ConfiguredTotalMissesExit(all: seq<Project>, project: Configuration.Arg, codes: seq<int>)
    requires |codes| == |Selection(all, project)| < |all|
    ensures Exit(|all|, false, codes) == None
  {
  }

  /** Selecting one of two projects by name selects fewer than are configured. */
  lemma OneOfTwo(a: Project, b: Project)
    requires a.name != b.name && a.name != "*"
    ensures Selection([a, b], Configuration.Str(a.name)) == [a]
  {
    var names := [a.name];
    assert names[..0] == [];
    assert Matches(a, names) == [a];
    assert Matches(b, names) == [];
    assert [a, b][..1] == [a] && [a][..0] == [];
    assert Picked([a], names) == [a];
    assert Picked([a, b], names) == Picked([a], names) + Matches(b, names);
  }

  // ----- The run handler -----

  /** An item of an array option: a string, or some other value. */
  datatype Value = Text(s: string) | NonText

  /** The `command` and `exec` options: a string, an array, or any other value. */
  datatype Listed = One(s: string) | Many(items: seq<Value>) | Unlisted

  /** The option as a list: a string is a list of one, any value other than an array is an empty list. */
  function AsList(a: Listed): (r: seq<Value>)
    ensures a.One? ==> r == [Text(a.s)]
    ensures a.Unlisted? ==> r == []
  {
    match a
    case One(s) => [Text(s)]
    case Many(items) => items
    case Unlisted => []
  }

  /** The command lines a project's entry contributes: a non-empty string, or every line of an array. */
  function Contribution(e: Entry): (r: seq<string>)
    ensures e.Line? ==> (r == [] <==> e.s == "")
    ensures e.OtherEntry? ==> r == []
  {
    match e
    case Line(s) => if s != "" then [s] else []
    case Lines(items) => items
    case OtherEntry => []
  }

  /** The command lines the named commands contribute, in the order of the names; a name with no entry contributes nothing. */
  function Named(commands: map<string, Entry>, names: seq<Value>): seq<string> {
    if names == [] then []
    else
      var n := names[|names| - 1];
      Named(commands, names[..|names| - 1])
        + (if n.Text? && n.s in commands then Contribution(commands[n.s]) else [])
  }

  /** The string items of `exec`, in order. */
  function Texts(exec: seq<Value>): seq<string> {
    if exec == [] then []
    else Texts(exec[..|exec| - 1]) + (if exec[|exec| - 1].Text? then [exec[|exec| - 1].s] else [])
  }

  /** What `run` executes for a project: its named commands, then the `exec` lines. */
  function Collected(project: Option<Project>, command: seq<Value>, exec: seq<Value>): seq<string> {
    (if project.Some? && project.value.commands.Some? then Named(project.value.commands.value, command) else [])
      + Texts(exec)
  }

  /** A name contributes the command lines of its entry. */
  predicate Contributes(commands: map<string, Entry>, n: Value, c: string) {
    n.Text? && n.s in commands && c in Contribution(commands[n.s])
  }

  lemma {:induction false} NamedMembers(commands: map<string, Entry>, names: seq<Value>, c: string)
    ensures c in Named(commands, names) <==> exists i :: 0 <= i < |names| && Contributes(commands, names[i], c)
  {
    if names != [] {
      var init := names[..|names| - 1];
      NamedMembers(commands, init, c);
      assert forall i :: 0 <= i < |init| ==> init[i] == names[i];
      if c in Named(commands, names) && c !in Named(commands, init) {
        assert Contributes(commands, names[|names| - 1], c);
      }
    }
  }

  lemma {:induction false} TextsMembers(exec: seq<Value>, c: string)
    ensures c in Texts(exec) <==> Text(c) in exec
  {
    if exec != [] {
      var init := exec[..|exec| - 1];
      TextsMembers(init, c);
      assert exec == init + [exec[|exec| - 1]];
    }
  }

  /** A line is run for a project exactly when a named command of the project contributes it or it is a string of `exec`. */
  lemma CollectedMembers(project: Option<Project>, command: seq<Value>, exec: seq<Value>, c: string)
    ensures c in Collected(project, command, exec) <==>
      || (project.Some? && project.value.commands.Some?
          && exists i :: 0 <= i < |command| && Contributes(project.value.commands.value, command[i], c))
      || Text(c) in exec
  {
    TextsMembers(exec, c);
    if project.Some? && project.value.commands.Some? {
      NamedMembers(project.value.commands.value, command, c);
    }
  }

  /** The loops of `_runHandler` that gather the command lines. */
  method Collect(project: Option<Project>, command: Listed, exec: Listed) returns (cmds: seq<string>)
    ensures cmds == Collected(project, AsList(command), AsList(exec))
  {
    var names := AsList(command);
    var lines := AsList(exec);
    cmds := [];
    if project.Some? && project.value.commands.Some? {
      var commands := project.value.commands.value;
      for i := 0 to |names|
        invariant cmds == Named(commands, names[..i])
      {
        assert names[..i + 1][..i] == names[..i];
        var n := names[i];
        if n.Text? && n.s in commands {
          match commands[n.s]
          case Line(s) =>
            if s != "" {
              cmds := cmds + [s];
            }
          case Lines(items) =>
            cmds := cmds + items;
          case OtherEntry =>
        }
      }
      assert names[..|names|] == names;
    }
    ghost var named := cmds;
    for i := 0 to |lines|
      invariant cmds == named + Texts(lines[..i])
    {
      assert lines[..i + 1][..i] == lines[..i];
      if lines[i].Text? {
        cmds := cmds + [lines[i].s];
      }
    }
    assert lines[..|lines|] == lines;
  }

  /** The lines run in order up to and including the first that fails. */
  function UntilFailure(cmds: seq<string>, succeeds: string -> bool): (ran: seq<string>)
    ensures ran <= cmds
    ensures forall i :: 0 <= i < |ran| - 1 ==> succeeds(ran[i])
    ensures ran == cmds <==> forall i :: 0 <= i < |cmds| - 1 ==> succeeds(cmds[i])
    ensures ran != cmds ==> ran != [] && !succeeds(ran[|ran| - 1])
  {
    if cmds == [] then []
    else if !succeeds(cmds[0]) then [cmds[0]]
    else
      var rest := UntilFailure(cmds[1..], succeeds);
      assert forall i :: 0 < i < |cmds| ==> cmds[1..][i - 1] == cmds[i];
      [cmds[0]] + rest
  }

  /** Every line runs in order; the first failure ends the project with code 1. */
  method Execute(cmds: seq<string>, succeeds: string -> bool) returns (code: int, ran: seq<string>)
    ensures ran == UntilFailure(cmds, succeeds)
    ensures code == 0 <==> forall c :: c in cmds ==> succeeds(c)
    ensures code == 0 || code == 1
  {
    ran := [];
    for i := 0 to |cmds|
      invariant ran == cmds[..i]
      invariant forall j :: 0 <= j < i ==> succeeds(cmds[j])
    {
      ran := ran + [cmds[i]];
      if !succeeds(cmds[i]) {
        FirstFailure(cmds, succeeds, i);
        return 1, ran;
      }
    }
    assert cmds[..|cmds|] == cmds;
    return 0, ran;
  }

  /** The lines run when the first failure is at index `i`. */
  lemma {:induction false} FirstFailure(cmds: seq<string>, succeeds: string -> bool, i: nat)
    requires i < |cmds| && !succeeds(cmds[i])
    requires forall j :: 0 <= j < i ==> succeeds(cmds[j])
    ensures UntilFailure(cmds, succeeds) == cmds[..i + 1]
  {
    if i > 0 {
      var rest := cmds[1..];
      assert rest[i - 1] == cmds[i];
      assert forall j :: 0 <= j < i - 1 ==> rest[j] == cmds[j + 1];
      FirstFailure(rest, succeeds, i - 1);
      assert cmds[..i + 1] == [cmds[0]] + rest[..i];
    }
  }

  /**
   * The work `run` does for one project: nothing, with code 0, when there is
   * no line to run; code 1 when the project's directory is missing (a
   * missing project stands for the current directory, which exists);
   * otherwise the lines in order until one fails.
   */
  method RunProject(project: Option<Project>, command: Listed, exec: Listed, present: bool, succeeds: string -> bool)
    returns (code: int, ran: seq<string>)
    ensures var cmds := Collected(project, AsList(command), AsList(exec));
      && (code == 0 <==> cmds == [] || ((project.None? || present) && forall c :: c in cmds ==> succeeds(c)))
      && ran == (if cmds == [] || !(project.None? || present) then [] else UntilFailure(cmds, succeeds))
    ensures code == 0 || code == 1
  {
    var cmds := Collect(project, command, exec);
    if |cmds| == 0 {
      return 0, [];
    }
    var reachable := project.None? || present;
    if !reachable {
      return 1, [];
    }
    code, ran := Execute(cmds, succeeds);
  }

  // ----- Manifest -----

  /** A project the manifest pins to a commit. */
  datatype Pin = Pin(name: string, hash: string)

  /** The hash the manifest pins the project to: that of the last entry naming it. */
  function PinFor(pins: seq<Pin>, name: string): (r: Option<string>)
    ensures r.Some? <==> exists i :: 0 <= i < |pins| && pins[i].name == name
    ensures r.Some? ==> exists i :: LastPin(pins, name, i, r.value)
  {
    if pins == [] then None
    else
      var init := pins[..|pins| - 1];
      var last := pins[|pins| - 1];
      if last.name == name then
        assert LastPin(pins, name, |pins| - 1, last.hash);
        Some(last.hash)
      else
        var r := PinFor(init, name);
        assert forall i :: 0 <= i < |init| ==> init[i] == pins[i];
        assert r.Some? ==> exists i :: LastPin(pins, name, i, r.value) by {
          if r.Some? {
            var i :| LastPin(init, name, i, r.value);
            assert LastPin(pins, name, i, r.value);
          }
        }
        r
  }

  /** Entry `i` pins the project to `hash`, and no later entry names it. */
  predicate LastPin(pins: seq<Pin>, name: string, i: int, hash: string) {
    && 0 <= i < |pins| && pins[i] == Pin(name, hash)
    && forall j :: i < j < |pins| ==> pins[j].name != name
  }

  /** The `forEach` over the manifest's projects: the last entry naming the project wins. */
  method FindPin(manifest: Option<seq<Pin>>, name: string) returns (pin: Option<string>)
    ensures pin == (if manifest.Some? then PinFor(manifest.value, name) else None)
  {
    pin := None;
    if manifest.Some? {
      var pins := manifest.value;
      for i := 0 to |pins|
        invariant pin == PinFor(pins[..i], name)
      {
        assert pins[..i + 1][..i] == pins[..i];
        if pins[i].name == name {
          pin := Some(pins[i].hash);
        }
      }
      assert pins[..|pins|] == pins;
    }
  }

  // ----- The clone handler -----

  /** The options `clone` was given; an empty branch or depth stands for none. */
  datatype CloneRequest = CloneRequest(remote: string, mirror: bool, bare: bool, branch: string, depth: string)

  /** The options `_cloneHandler` passes to `Clone` for a project, given the manifest's pin for it. */
  function CloneOptionsFor(o: CloneRequest, pin: Option<string>): GitCommands.CloneOptions {
    if o.mirror then GitCommands.CloneOptions(o.remote, true, "", false, "", "")
    else if pin.Some? then GitCommands.CloneOptions(o.remote, false, "", o.bare, o.depth, pin.value)
    else GitCommands.CloneOptions(o.remote, false, o.branch, o.bare, o.depth, "")
  }

  /** The clone options of one project, the manifest consulted only when not mirroring. */
  method CloneHandlerOptions(o: CloneRequest, manifest: Option<seq<Pin>>, name: string) returns (c: GitCommands.CloneOptions)
    ensures c == CloneOptionsFor(o, if manifest.Some? then PinFor(manifest.value, name) else None)
  {
    c := GitCommands.CloneOptions(o.remote, false, "", false, "", "");
    if o.mirror {
      c := c.(mirror := true);
    } else {
      c := c.(bare := o.bare, branch := o.branch, depth := o.depth);
      var pin := FindPin(manifest, name);
      if pin.Some? {
        c := c.(hash := pin.value, branch := "");
      }
    }
  }

  /**
   * What `git clone` is asked for: a mirror of the remote and nothing else;
   * a pinned project without a branch, reset to its hash; any other project
   * with the requested branch, bareness and depth.
   */
  lemma CloneRequestHonoured(o: CloneRequest, pin: Option<string>)
    ensures var c := CloneOptionsFor(o, pin);
      var args := GitCommands.CloneArgs(c);
      && c.remote == o.remote
      && (o.mirror ==> args == [GitCommands.Flag(GitCommands.Mirror)] && c.hash == "")
      && (!o.mirror && pin.Some? ==> c.hash == pin.value && forall b :: GitCommands.Valued(GitCommands.Branch, b) !in args)
      && (!o.mirror && pin.None? ==> c.hash == "" && forall b :: GitCommands.Valued(GitCommands.Branch, b) in args <==> o.branch != "" && b == o.branch)
      && (!o.mirror ==> (GitCommands.Has(args, GitCommands.Bare) <==> o.bare))
  {
  }

  // ----- The sync handler -----

  /** What `ExistingType` reports about a project's directory. */
  datatype Existing = Existing(found: bool, bare: bool)

  /** How `sync` handles one project. */
  datatype SyncFlags = SyncFlags(bare: bool, depth: Option<int>, branch: string, fullClone: bool, forceReset: bool, hash: string)

  /** A checkout that is there and not bare has its `git status` read; when that fails the project stops. */
  predicate StatusFails(existing: Existing, statusOk: bool) {
    existing.found && !existing.bare && !statusOk
  }

  /** A bare repository is unshallowed first unless `sync` asked for a bare or depth-1 copy. */
  predicate Unshallows(existing: Existing, bare: bool, depth: Option<int>) {
    existing.found && existing.bare && !bare && depth != Some(1)
  }

  /**
   * The options object `_syncHandler` shares between the projects it
   * handles: the manifest step clears its branch and tag.
   */
  class SyncOptions {
    const bare: bool
    const depth: Option<int>
    var branch: Option<string>
    var tag: Option<string>
    const fullClone: bool
    const forceReset: bool
    const manifest: Option<seq<Pin>>

    constructor (bare: bool, depth: Option<int>, branch: Option<string>, tag: Option<string>, fullClone: bool, forceReset: bool, manifest: Option<seq<Pin>>)
      ensures this.bare == bare && this.depth == depth && this.branch == branch && this.tag == tag
      ensures this.fullClone == fullClone && this.forceReset == forceReset && this.manifest == manifest
    {
      this.bare := bare;
      this.depth := depth;
      this.branch := branch;
      this.tag := tag;
      this.fullClone := fullClone;
      this.forceReset := forceReset;
      this.manifest := manifest;
    }

    /** The manifest's pin for a project. */
    function PinOf(name: string): Option<string>
      reads this
    {
      if manifest.Some? then PinFor(manifest.value, name) else None
    }

    /**
     * The flags of one project, from what the repository is once any
     * unshallowing fetch has run (`None` when that fetch fails, or when the
     * `git status` of a checkout that is there and not bare fails): bare when
     * it is bare or `bare` was asked for; the depth only when not bare; a
     * full clone only when not bare, with no branch, and asked for; a
     * forced reset only when neither bare nor a full clone. A pinned
     * project then takes the pin's hash and no branch, and the shared
     * options lose their branch and tag.
     */
    method Flags(name: string, before: Existing, fetched: bool, after: Existing, statusOk: bool) returns (r: Option<SyncFlags>)
      modifies this
      ensures !fetched && Unshallows(before, bare, depth) ==> r == None && branch == old(branch) && tag == old(tag)
      ensures (&& (fetched || !Unshallows(before, bare, depth))
               && StatusFails(if Unshallows(before, bare, depth) then after else before, statusOk)) ==>
        r == None && branch == old(branch) && tag == old(tag)
      ensures fetched || !Unshallows(before, bare, depth) ==>
        var existing := if Unshallows(before, bare, depth) then after else before;
        !StatusFails(existing, statusOk) ==>
        var asked := old(branch).GetOr("");
        var isBare := (existing.found && existing.bare) || bare;
        var full := !isBare && asked == "" && fullClone;
        && r == Some(SyncFlags(
          isBare,
          if isBare then None else depth,
          if PinOf(name).Some? then "" else asked,
          full,
          !isBare && !full && forceReset,
          PinOf(name).GetOr("")))
        && (PinOf(name).Some? ==> branch == None && tag == None)
        && (PinOf(name).None? ==> branch == old(branch) && tag == old(tag))
    {
      var f := SyncFlags(false, None, "", false, false, "");
      var existing := before;
      if Unshallows(before, bare, depth) {
        if !fetched {
          return None;
        }
        existing := after;
      }
      if (existing.found && existing.bare) || bare {
        f := f.(bare := true);
      } else {
        f := f.(depth := depth);
      }
      if branch.Some? {
        f := f.(branch := branch.value);
      }
      if !f.bare && f.branch == "" && fullClone {
        f := f.(fullClone := true);
      }
      if !f.bare && !f.fullClone {
        f := f.(forceReset := forceReset);
      }
      if StatusFails(existing, statusOk) {
        return None;
      }
      var pin := FindPin(manifest, name);
      if pin.Some? {
        f := f.(hash := pin.value, branch := "");
        branch := None;
        tag := None;
      }
      r := Some(f);
    }

    /** The flags of one project, the manifest's pin applying to that project alone. */
    method FlagsCorrected(name: string, before: Existing, fetched: bool, after: Existing, statusOk: bool) returns (r: Option<SyncFlags>)
      ensures r == SyncFlagsFor(bare, depth, branch, fullClone, forceReset, PinOf(name), before, fetched, after, statusOk)
    {
      var f := SyncFlags(false, None, "", false, false, "");
      var existing := before;
      if Unshallows(before, bare, depth) {
        if !fetched {
          return None;
        }
        existing := after;
      }
      if (existing.found && existing.bare) || bare {
        f := f.(bare := true);
      } else {
        f := f.(depth := depth);
      }
      if branch.Some? {
        f := f.(branch := branch.value);
      }
      if !f.bare && f.branch == "" && fullClone {
        f := f.(fullClone := true);
      }
      if !f.bare && !f.fullClone {
        f := f.(forceReset := forceReset);
      }
      if StatusFails(existing, statusOk) {
        return None;
      }
      var pin := FindPin(manifest, name);
      if pin.Some? {
        f := f.(hash := pin.value, branch := "");
      }
      r := Some(f);
    }
  }

  /** The flags of one project as a value of the options, the pin and what the repository is. */
  function SyncFlagsFor(
    bare: bool, depth: Option<int>, branch: Option<string>, fullClone: bool, forceReset: bool,
    pin: Option<string>, before: Existing, fetched: bool, after: Existing, statusOk: bool): Option<SyncFlags>
  {
    if Unshallows(before, bare, depth) && !fetched then None
    else
      var existing := if Unshallows(before, bare, depth) then after else before;
      if StatusFails(existing, statusOk) then None
      else
        var isBare := (existing.found && existing.bare) || bare;
        var full := !isBare && branch.GetOr("") == "" && fullClone;
        Some(SyncFlags(
          isBare,
          if isBare then None else depth,
          if pin.Some? then "" else branch.GetOr(""),
          full,
          !isBare && !full && forceReset,
          pin.GetOr("")))
  }

  /**
   * At most one of a bare copy, a full clone and a forced reset; a depth
   * only without a bare copy; a full clone only without a branch; the
   * requested branch kept unless the project is pinned. A project gets no
   * flags exactly when its unshallowing fetch or its status fails.
   */
  lemma SyncFlagsConsistent(
    bare: bool, depth: Option<int>, branch: Option<string>, fullClone: bool, forceReset: bool,
    pin: Option<string>, before: Existing, fetched: bool, after: Existing, statusOk: bool)
    ensures var r := SyncFlagsFor(bare, depth, branch, fullClone, forceReset, pin, before, fetched, after, statusOk);
      r.None? <==> (Unshallows(before, bare, depth) && !fetched) ||
                   ((fetched || !Unshallows(before, bare, depth)) &&
                    StatusFails(if Unshallows(before, bare, depth) then after else before, statusOk))
    ensures var r := SyncFlagsFor(bare, depth, branch, fullClone, forceReset, pin, before, fetched, after, statusOk);
      r.Some? ==>
        && !(r.value.bare && r.value.fullClone) && !(r.value.bare && r.value.forceReset) && !(r.value.fullClone && r.value.forceReset)
        && (r.value.depth.Some? ==> !r.value.bare && r.value.depth == depth)
        && (r.value.fullClone ==> branch.GetOr("") == "" && fullClone)
        && (r.value.bare <==> bare || (before.found && before.bare && !Unshallows(before, bare, depth)) || (Unshallows(before, bare, depth) && after.found && after.bare))
        && (pin.None? ==> r.value.branch == branch.GetOr("") && r.value.hash == "")
        && (pin.Some? ==> r.value.branch == "" && r.value.hash == pin.value)
  {
  }

  /**
   * Run one after the other on the shared options, a pinned project makes
   * the next, unpinned, project lose the branch `sync` was asked for.
   */
  method SharedBranchLeaks() returns (first: Option<SyncFlags>, second: Option<SyncFlags>)
    ensures first.Some? && first.value.branch == "" && first.value.hash == "h1"
    ensures second.Some? && second.value.branch == "" && second.value.hash == ""
  {
    var o := new SyncOptions(false, None, Some("dev"), None, false, true, Some([Pin("a", "h1")]));
    var absent := Existing(false, false);
    assert [Pin("a", "h1")][..0] == [];
    first := o.Flags("a", absent, true, absent, true);
    second := o.Flags("b", absent, true, absent, true);
  }

  /** With the pin applied to its own project only, the next project keeps the requested branch. */
  method SharedBranchKept() returns (first: Option<SyncFlags>, second: Option<SyncFlags>)
    ensures first.Some? && first.value.branch == "" && first.value.hash == "h1"
    ensures second.Some? && second.value.branch == "dev" && second.value.hash == ""
  {
    var o := new SyncOptions(false, None, Some("dev"), None, false, true, Some([Pin("a", "h1")]));
    var absent := Existing(false, false);
    assert [Pin("a", "h1")][..0] == [];
    first := o.FlagsCorrected("a", absent, true, absent, true);
    second := o.FlagsCorrected("b", absent, true, absent, true);
  }
}
