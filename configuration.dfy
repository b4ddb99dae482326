/**
 * The project configuration of projects.js: which projects a selection of
 * groups takes in (`_includeProject`), what `Load` accumulates, the
 * validation of a digraph's steps (`GetDiGraph`) and the projects each
 * template is rendered for (`Template`).
 */
module Configuration {
  import opened Wrappers
  import opened Text
  import Traversal

  /** An argument where the source tests `_.isString` and `_.isArray`: undefined, a string, an array of strings, or any other value. */
  datatype Arg = Undefined | Str(s: string) | Strs(items: seq<string>) | Other

  /** The fields of a configured project the core reads. */
  datatype Project = Project(name: string, path: string, groups: seq<string>)

  /** `name` is in the argument, a string being taken as a one-element list and any other value as no list. */
  predicate Names(a: Arg, name: string) {
    match a
    case Str(s) => name == s
    case Strs(items) => name in items
    case _ => false
  }

  // ----- Group expressions -----

  /** The characters of `/[()|&\s]/`, which join group names into an expression. */
  predicate IsOperator(c: char) {
    c == '(' || c == ')' || c == '|' || c == '&' || IsWhitespace(c)
  }

  /** A run of operator characters, or a run of other characters. */
  datatype Piece = Piece(operator: bool, text: string)

  /** The pieces written one after another. */
  function Concat(pieces: seq<Piece>): string {
    if pieces == [] then "" else pieces[0].text + Concat(pieces[1..])
  }

  /** A piece is not empty and holds only characters of its kind. */
  predicate Uniform(p: Piece) {
    p.text != [] && forall c :: c in p.text ==> IsOperator(c) == p.operator
  }

  /**
   * `groups.split(/([()|&\s]+)/)` without its empty pieces: the maximal
   * runs of operator characters and of other characters, which put back
   * together give the string.
   */
  function Pieces(s: string): (r: seq<Piece>)
    ensures Concat(r) == s
    ensures forall i :: 0 <= i < |r| ==> Uniform(r[i])
    ensures forall i :: 0 <= i < |r| - 1 ==> r[i].operator != r[i + 1].operator
  {
    if s == [] then []
    else
      var rest := Pieces(s[1..]);
      var op := IsOperator(s[0]);
      if rest != [] && rest[0].operator == op then
        var r := [Piece(op, [s[0]] + rest[0].text)] + rest[1..];
        assert r[1..] == rest[1..];
        assert [s[0]] + rest[0].text + Concat(rest[1..]) == [s[0]] + Concat(rest);
        assert s == [s[0]] + s[1..];
        r
      else
        var r := [Piece(op, [s[0]])] + rest;
        assert r[1..] == rest;
        assert s == [s[0]] + s[1..];
        r
  }

  /** What a piece contributes to the expression: an operator run as it is, a name as `true` or `false`. */
  function Lookup(p: Piece, groups: string, project: Project): string {
    if p.operator then p.text
    else if groups == project.name || p.text in project.groups then "true"
    else "false"
  }

  /** The pieces with each name looked up. */
  function Substituted(pieces: seq<Piece>, groups: string, project: Project): string {
    if pieces == [] then "" else Lookup(pieces[0], groups, project) + Substituted(pieces[1..], groups, project)
  }

  /** The expression `_includeProject` builds from a groups string for a project. */
  function GroupExpression(groups: string, project: Project): string {
    Substituted(Pieces(groups), groups, project)
  }

  /** The operator characters of a string, in order. */
  function Operators(s: string): (r: string)
    ensures forall c :: c in r ==> IsOperator(c)
  {
    if s == [] then [] else (if IsOperator(s[0]) then [s[0]] else []) + Operators(s[1..])
  }

  lemma {:induction false} OperatorsAppend(a: string, b: string)
    ensures Operators(a + b) == Operators(a) + Operators(b)
  {
    if a == [] {
      assert a + b == b;
    } else {
      assert (a + b)[0] == a[0] && (a + b)[1..] == a[1..] + b;
      OperatorsAppend(a[1..], b);
      var x := if IsOperator(a[0]) then [a[0]] else [];
      assert x + (Operators(a[1..]) + Operators(b)) == (x + Operators(a[1..])) + Operators(b);
    }
  }

  /** A uniform piece's operators are all of it or none of it. */
  lemma {:induction false} UniformOperators(s: string, operator: bool)
    requires forall c :: c in s ==> IsOperator(c) == operator
    ensures Operators(s) == if operator then s else []
  {
    if s != [] {
      assert s[0] in s;
      assert forall c :: c in s[1..] ==> c in s;
      UniformOperators(s[1..], operator);
    }
  }

  /** Looking names up keeps every operator of the pieces, in order. */
  lemma {:induction false} SubstitutedOperators(pieces: seq<Piece>, groups: string, project: Project)
    requires forall i :: 0 <= i < |pieces| ==> Uniform(pieces[i])
    ensures Operators(Substituted(pieces, groups, project)) == Operators(Concat(pieces))
  {
    if pieces != [] {
      var p := pieces[0];
      SubstitutedOperators(pieces[1..], groups, project);
      OperatorsAppend(Lookup(p, groups, project), Substituted(pieces[1..], groups, project));
      OperatorsAppend(p.text, Concat(pieces[1..]));
      LookupOperators(p, groups, project);
    }
  }

  /** Looking a piece up keeps its operators: all of an operator run, none of a name. */
  lemma LookupOperators(p: Piece, groups: string, project: Project)
    requires Uniform(p)
    ensures Operators(Lookup(p, groups, project)) == Operators(p.text)
  {
    UniformOperators(p.text, p.operator);
    if !p.operator {
      UniformOperators(Lookup(p, groups, project), false);
    }
  }

  /**
   * The expression has the operators of the groups string, in the same
   * order: only the names are replaced, so the shape of `a && (b || c)`
   * is what `eval` decides.
   */
  lemma ExpressionKeepsOperators(groups: string, project: Project)
    ensures Operators(GroupExpression(groups, project)) == Operators(groups)
  {
    SubstitutedOperators(Pieces(groups), groups, project);
  }

  /** A character of a piece is a character of the pieces put together. */
  lemma {:induction false} InConcat(pieces: seq<Piece>, i: nat, c: char)
    requires i < |pieces| && c in pieces[i].text
    ensures c in Concat(pieces)
  {
    if i > 0 {
      InConcat(pieces[1..], i - 1, c);
    }
  }

  /**
   * A groups string that is one name gives `true` exactly when that name
   * is the project's own or one of its groups.
   */
  lemma SingleGroup(g: string, project: Project)
    requires g != [] && forall c :: c in g ==> !IsOperator(c)
    ensures GroupExpression(g, project) == if g == project.name || g in project.groups then "true" else "false"
  {
    var r := Pieces(g);
    assert r != [];
    InConcat(r, 0, r[0].text[0]);
    assert !r[0].operator;
    if |r| > 1 {
      InConcat(r, 1, r[1].text[0]);
      assert false;
    }
    assert r[1..] == [];
    assert Concat(r) == r[0].text + Concat(r[1..]);
    assert r[0].text == g;
    assert GroupExpression(g, project) == Lookup(r[0], g, project) + Substituted(r[1..], g, project);
  }

  /** Some entry of `groups` is the project's name or one of its groups (the loop over a groups array). */
  function AnyGroup(groups: seq<string>, project: Project): (b: bool)
    ensures b <==> exists i :: 0 <= i < |groups| && (groups[i] == project.name || groups[i] in project.groups)
  {
    if groups == [] then false
    else if groups[0] == project.name || groups[0] in project.groups then true
    else
      var rest := AnyGroup(groups[1..], project);
      assert forall i :: 0 < i < |groups| ==> groups[i] == groups[1..][i - 1];
      rest
  }

  /**
   * `_includeProject`: a name listed in `with` is included, then one listed
   * in `without` is excluded; a groups string is rewritten into an
   * expression whose value `eval` gives (an expression that fails to
   * evaluate excludes), and a groups array includes a project when some
   * entry is its name or one of its groups; any other groups value excludes.
   */
  function Include(project: Project, groups: Arg, with: Arg, without: Arg, eval: string -> Option<bool>): (b: bool)
    ensures Names(with, project.name) ==> b
    ensures !Names(with, project.name) && Names(without, project.name) ==> !b
    ensures !Names(with, project.name) && !Names(without, project.name) ==>
      && (groups.Str? ==> b == eval(GroupExpression(groups.s, project)).GetOr(false))
      && (groups.Strs? ==> (b <==> exists i :: 0 <= i < |groups.items| && (groups.items[i] == project.name || groups.items[i] in project.groups)))
      && (!groups.Str? && !groups.Strs? ==> !b)
  {
    if Names(with, project.name) then true
    else if Names(without, project.name) then false
    else match groups
      case Str(s) => eval(GroupExpression(s, project)).GetOr(false)
      case Strs(items) => AnyGroup(items, project)
      case _ => false
  }

  // ----- Load -----

  /** The options of `Load`. */
  datatype LoadOptions = LoadOptions(groups: Arg, without: Arg)

  /** A project as `Load` sees it: its groups with "all" appended. */
  function WithAll(p: Project): Project {
    p.(groups := p.groups + ["all"])
  }

  /**
   * The groups option after `_.defaultsDeep(opts, {groups: ["all"]})`: an
   * undefined value takes the default, and so does an empty array, whose
   * missing first entry the merge fills in.
   */
  function DefaultGroups(a: Arg): Arg {
    match a
    case Undefined => Strs(["all"])
    case Strs(items) => if items == [] then Strs(["all"]) else a
    case _ => a
  }

  /** The `without` option made a list: a string as one entry, an array as itself, anything else as none. */
  function WithoutList(a: Arg): seq<string> {
    match a
    case Str(s) => [s]
    case Strs(items) => items
    case _ => []
  }

  /** The projects `Load` keeps, each with "all" among its groups, in configuration order. */
  function Selected(ps: seq<Project>, groups: Arg, without: seq<string>, eval: string -> Option<bool>): (r: seq<Project>)
    ensures |r| <= |ps|
    ensures forall p :: p in r ==> "all" in p.groups
    ensures forall q :: q in ps && Include(WithAll(q), groups, Undefined, Strs(without), eval) ==> WithAll(q) in r
    ensures forall p :: p in r ==> exists q :: q in ps && p == WithAll(q) && Include(p, groups, Undefined, Strs(without), eval)
  {
    if ps == [] then []
    else
      var n := |ps| - 1;
      var p := WithAll(ps[n]);
      var r := Selected(ps[..n], groups, without, eval) + (if Include(p, groups, Undefined, Strs(without), eval) then [p] else []);
      assert ps == ps[..n] + [ps[n]];
      r
  }

  /** `acc` followed by each entry of `gs` not already there, in first-seen order. */
  function AddNew(acc: seq<string>, gs: seq<string>): (r: seq<string>)
    ensures acc <= r
    ensures Traversal.NoDuplicates(acc) ==> Traversal.NoDuplicates(r)
    ensures forall x :: x in r <==> x in acc || x in gs
  {
    if gs == [] then acc
    else
      var n := |gs| - 1;
      var before := AddNew(acc, gs[..n]);
      assert gs == gs[..n] + [gs[n]];
      if gs[n] in before then before else before + [gs[n]]
  }

  /** The groups `Load` reports: "all", then each group of the kept projects not seen before. */
  function SeenGroups(ps: seq<Project>): (r: seq<string>)
    ensures |r| > 0 && r[0] == "all" && Traversal.NoDuplicates(r)
    ensures forall x :: x in r <==> x == "all" || exists p :: p in ps && x in p.groups
  {
    if ps == [] then ["all"]
    else
      var n := |ps| - 1;
      var r := AddNew(SeenGroups(ps[..n]), ps[n].groups);
      assert ps == ps[..n] + [ps[n]];
      r
  }

  /** The names of the projects, index for index. */
  function NamesOf(ps: seq<Project>): (r: seq<string>)
    ensures |r| == |ps| && forall i :: 0 <= i < |ps| ==> r[i] == ps[i].name
  {
    if ps == [] then [] else NamesOf(ps[..|ps| - 1]) + [ps[|ps| - 1].name]
  }

  /** The paths of the projects, index for index. */
  function PathsOf(ps: seq<Project>): (r: seq<string>)
    ensures |r| == |ps| && forall i :: 0 <= i < |ps| ==> r[i] == ps[i].path
  {
    if ps == [] then [] else PathsOf(ps[..|ps| - 1]) + [ps[|ps| - 1].path]
  }

  /** The configured projects not named in `without`, each with "all" appended to its groups. */
  function Unexcluded(ps: seq<Project>, without: seq<string>): seq<Project> {
    if ps == [] then []
    else
      var n := |ps| - 1;
      Unexcluded(ps[..n], without) + (if ps[n].name in without then [] else [WithAll(ps[n])])
  }

  /**
   * With the default groups, `Load` keeps exactly the projects not named
   * in `without`: every project is in the group "all".
   */
  lemma {:induction false} DefaultSelectsUnexcluded(ps: seq<Project>, without: seq<string>, eval: string -> Option<bool>)
    ensures Selected(ps, DefaultGroups(Undefined), without, eval) == Unexcluded(ps, without)
  {
    if ps != [] {
      var n := |ps| - 1;
      DefaultSelectsUnexcluded(ps[..n], without, eval);
      var p := WithAll(ps[n]);
      assert "all" in p.groups;
      assert Include(p, Strs(["all"]), Undefined, Strs(without), eval) <==> ps[n].name !in without;
    }
  }

  // ----- Digraphs -----

  /** A digraph step as configured: its `id` and `project` when they are strings. */
  datatype StepConfig = StepConfig(id: Option<string>, project: Option<string>)

  /** Why `GetDiGraph` throws. */
  datatype DiGraphError =
    | NotFound(name: string)
    | MissingId(name: string)
    | MissingProject(name: string)
    | DuplicateIds(name: string, ids: seq<string>)

  /** The entries joined with " and " between them. */
  function JoinAnd(ids: seq<string>): string {
    if ids == [] then ""
    else if |ids| == 1 then ids[0]
    else ids[0] + " and " + JoinAnd(ids[1..])
  }

  /** The message of the error `GetDiGraph` throws. */
  function Message(e: DiGraphError): string {
    match e
    case NotFound(n) => "digraph " + n + " not found"
    case MissingId(n) => "digraph " + n + " step has missing id"
    case MissingProject(n) => "digraph " + n + " step has missing project"
    case DuplicateIds(n, ids) => "digraph " + n + " has duplicate ids " + JoinAnd(ids)
  }

  /** A field that is a non-empty string. */
  predicate Filled(f: Option<string>) {
    f.Some? && f.value != ""
  }

  /** A step with a non-empty string `id` and `project`. */
  predicate WellFormed(s: StepConfig) {
    Filled(s.id) && Filled(s.project)
  }

  /** Step `i` is the first step that is not well formed. */
  predicate FirstIllFormed(steps: seq<StepConfig>, i: int) {
    0 <= i < |steps| && !WellFormed(steps[i]) && forall j :: 0 <= j < i ==> WellFormed(steps[j])
  }

  /** The error for the first step that lacks an `id` (checked first) or a `project`. */
  function FirstMissing(steps: seq<StepConfig>, name: string): (r: Option<DiGraphError>)
    ensures r.None? <==> forall i :: 0 <= i < |steps| ==> WellFormed(steps[i])
    ensures r.Some? ==> exists i :: (
      && FirstIllFormed(steps, i)
      && r.value == (if Filled(steps[i].id) then MissingProject(name) else MissingId(name)))
  {
    if steps == [] then None
    else if !Filled(steps[0].id) then
      assert FirstIllFormed(steps, 0);
      Some(MissingId(name))
    else if !Filled(steps[0].project) then
      assert FirstIllFormed(steps, 0);
      Some(MissingProject(name))
    else
      var tail := steps[1..];
      var r := FirstMissing(tail, name);
      assert forall i :: 0 < i < |steps| ==> steps[i] == tail[i - 1];
      if r.None? then r
      else
        var i :| FirstIllFormed(tail, i)
          && r.value == (if Filled(tail[i].id) then MissingProject(name) else MissingId(name));
        assert FirstIllFormed(steps, i + 1);
        r
  }

  /** The IDs of the steps, in order (each a string once the steps are checked). */
  function StepIds(steps: seq<StepConfig>): (ids: seq<string>)
    ensures |ids| == |steps| && forall i :: 0 <= i < |steps| ==> ids[i] == steps[i].id.GetOr("")
  {
    if steps == [] then [] else [steps[0].id.GetOr("")] + StepIds(steps[1..])
  }

  /** The entries of `keys` that occur more than once in `ids`, in the order of `keys`. */
  function Repeated(keys: seq<string>, ids: seq<string>): (r: seq<string>)
    ensures Traversal.NoDuplicates(keys) ==> Traversal.NoDuplicates(r)
    ensures forall x :: x in r <==> x in keys && multiset(ids)[x] > 1
  {
    if keys == [] then []
    else
      var n := |keys| - 1;
      var before := Repeated(keys[..n], ids);
      assert keys == keys[..n] + [keys[n]];
      before + (if multiset(ids)[keys[n]] > 1 then [keys[n]] else [])
  }

  /**
   * The keys of `_(ids).groupBy()` holding more than one entry: each ID
   * that occurs twice or more, once. The model lists them in the order the
   * IDs first occur; JavaScript lists integer-like keys first, and the
   * contract leaves the order open.
   */
  function Duplicates(ids: seq<string>): (r: seq<string>)
    ensures Traversal.NoDuplicates(r)
    ensures forall x :: x in r <==> multiset(ids)[x] > 1
    ensures r == [] <==> Traversal.NoDuplicates(ids)
  {
    var keys := AddNew([], ids);
    var r := Repeated(keys, ids);
    DistinctCounts(ids);
    assert r != [] ==> r[0] in r;
    r
  }

  /** A list has no repeated entry exactly when no entry occurs twice. */
  lemma {:induction false} DistinctCounts(ids: seq<string>)
    ensures Traversal.NoDuplicates(ids) <==> forall x :: multiset(ids)[x] <= 1
  {
    if ids != [] {
      var n := |ids| - 1;
      var init := ids[..n];
      var x := ids[n];
      DistinctCounts(init);
      assert ids == init + [x];
      AppendDistinct(init, x);
      assert multiset(ids) == multiset(init) + multiset{x};
      if Traversal.NoDuplicates(ids) {
        assert multiset(init)[x] == 0;
        forall y ensures multiset(ids)[y] <= 1 {
          assert multiset(ids)[y] == multiset(init)[y] + (if y == x then 1 else 0);
        }
      }
      if forall y :: multiset(ids)[y] <= 1 {
        forall y ensures multiset(init)[y] <= 1 {
          assert multiset(ids)[y] == multiset(init)[y] + (if y == x then 1 else 0);
        }
        assert multiset(ids)[x] == multiset(init)[x] + 1;
        assert x !in init;
      }
    }
  }

  /** A list with one more entry has no repeat exactly when the list has none and lacks the entry. */
  lemma AppendDistinct(init: seq<string>, x: string)
    ensures Traversal.NoDuplicates(init + [x]) <==> Traversal.NoDuplicates(init) && x !in init
  {
    var ids := init + [x];
    if Traversal.NoDuplicates(ids) {
      forall i, j | 0 <= i < j < |init| ensures init[i] != init[j] {
        assert ids[i] == init[i] && ids[j] == init[j];
      }
      forall k | 0 <= k < |init| ensures init[k] != x {
        assert ids[k] == init[k] && ids[|init|] == x;
      }
    }
    if Traversal.NoDuplicates(init) && x !in init {
      forall i, j | 0 <= i < j < |ids| ensures ids[i] != ids[j] {
        if j < |init| {
          assert ids[i] == init[i] && ids[j] == init[j];
        } else {
          assert ids[i] in init;
        }
      }
    }
  }

  // ----- Templates -----

  /** A configured template: its name, the projects it is rendered for, and its file when that is a string. */
  datatype TemplateConfig = TemplateConfig(name: string, projects: Arg, file: Option<string>)

  /** One rendering: a template for a project, or for no project when `project` is empty. */
  datatype Render = Render(template: string, project: string)

  /** The names of the templates. */
  function TemplateNames(templates: seq<TemplateConfig>): (r: seq<string>)
    ensures |r| == |templates| && forall i :: 0 <= i < |templates| ==> r[i] == templates[i].name
  {
    if templates == [] then [] else [templates[0].name] + TemplateNames(templates[1..])
  }

  /** The templates `Template` renders: all of them for "all" (the default), a string as one name, an array as given. */
  function Requested(opt: Arg, templates: seq<TemplateConfig>): seq<string> {
    match opt
    case Undefined => TemplateNames(templates)
    case Str(s) => if s == "all" then TemplateNames(templates) else [s]
    case Strs(items) => items
    case Other => []
  }

  /**
   * The projects a template is rendered for: every loaded project for "*",
   * a string as one name, an array as given, and one rendering without a
   * project for anything else.
   */
  function Targets(projects: Arg, loaded: seq<Project>): (r: seq<string>)
    ensures projects == Str("*") ==> r == NamesOf(loaded)
    ensures projects.Str? && projects.s != "*" ==> r == [projects.s]
    ensures projects.Strs? ==> r == projects.items
    ensures !projects.Str? && !projects.Strs? ==> r == [""]
  {
    match projects
    case Str(s) => if s == "*" then NamesOf(loaded) else [s]
    case Strs(items) => items
    case _ => [""]
  }

  /** The first template of that name (`_.find`). */
  function FindTemplate(templates: seq<TemplateConfig>, name: string): (r: Option<TemplateConfig>)
    ensures r.Some? ==> r.value in templates && r.value.name == name
    ensures r.None? ==> forall t :: t in templates ==> t.name != name
  {
    if templates == [] then None
    else if templates[0].name == name then Some(templates[0])
    else FindTemplate(templates[1..], name)
  }

  /** `done` ahead of what a later part of the plan gives, or that part's error. */
  function Then(done: seq<Render>, r: Result<seq<Render>, string>): Result<seq<Render>, string> {
    match r
    case Ok(rest) => Ok(done + rest)
    case Err(e) => Err(e)
  }

  /** Putting nothing ahead of a result leaves it as it is. */
  lemma ThenNothing(r: Result<seq<Render>, string>)
    ensures Then([], r) == r
  {
    if r.Ok? {
      assert [] + r.value == r.value;
    }
  }

  /** Putting `a` and then `b` ahead of a result is putting `a + b` ahead of it. */
  lemma ThenThen(a: seq<Render>, b: seq<Render>, r: Result<seq<Render>, string>)
    ensures Then(a, Then(b, r)) == Then(a + b, r)
  {
    if r.Ok? {
      assert a + (b + r.value) == a + b + r.value;
    }
  }

  /**
   * The renderings of template `t` (requested as `asked`) for `targets`:
   * a target that is not a loaded project, or a template without a file,
   * throws at that target.
   */
  function RenderTargets(t: TemplateConfig, asked: string, targets: seq<string>, loaded: seq<Project>): (r: Result<seq<Render>, string>)
    ensures r.Ok? && r.value != [] ==> t.file.Some?
    ensures r.Ok? ==> forall k :: 0 <= k < |r.value| ==>
      r.value[k].template == t.name && (r.value[k].project == "" || r.value[k].project in NamesOf(loaded))
    ensures r.Ok? <==> targets == [] || (t.file.Some? && forall k :: 0 <= k < |targets| ==> Renderable(targets[k], loaded))
    ensures r.Ok? ==> |r.value| == |targets| && forall k :: 0 <= k < |targets| ==> r.value[k] == Render(t.name, targets[k])
    ensures targets != [] && Renderable(targets[0], loaded) && t.file.None? ==> r == Err("no template file for " + t.name + " specified")
  {
    if targets == [] then Ok([])
    else if !Renderable(targets[0], loaded) then Err(CannotFindProject(t, asked, targets[0]))
    else if t.file.None? then Err("no template file for " + t.name + " specified")
    else
      var rest := RenderTargets(t, asked, targets[1..], loaded);
      assert forall k :: 0 < k < |targets| ==> targets[1..][k - 1] == targets[k];
      Then([Render(t.name, targets[0])], rest)
  }

  /**
   * The first target naming no loaded project fails the rendering with
   * "cannot find project"; a template without a file fails at the first
   * target already, so only that target can report it then.
   */
  lemma {:induction false} RenderTargetsNotFound(t: TemplateConfig, asked: string, targets: seq<string>, loaded: seq<Project>, i: nat)
    requires i < |targets| && FirstUnrenderable(targets, loaded, i) && (t.file.Some? || i == 0)
    ensures RenderTargets(t, asked, targets, loaded) == Err(CannotFindProject(t, asked, targets[i]))
  {
    if i > 0 {
      assert Renderable(targets[0], loaded);
      assert FirstUnrenderable(targets[1..], loaded, i - 1) by {
        assert forall j :: 0 <= j < i - 1 ==> targets[1..][j] == targets[j + 1];
      }
      RenderTargetsNotFound(t, asked, targets[1..], loaded, i - 1);
    }
  }

  /** `targets[i]` is the first target that names no loaded project. */
  predicate FirstUnrenderable(targets: seq<string>, loaded: seq<Project>, i: int)
    requires 0 <= i < |targets|
  {
    !Renderable(targets[i], loaded) && forall j :: 0 <= j < i ==> Renderable(targets[j], loaded)
  }

  /** A target `RenderTargets` can render: no project, or a loaded one. */
  predicate Renderable(target: string, loaded: seq<Project>) {
    target == "" || target in NamesOf(loaded)
  }

  /** The error for a target that names no loaded project. */
  function CannotFindProject(t: TemplateConfig, asked: string, target: string): string {
    "failed to template configuration " + t.name + ": unable to render template " + asked + ": cannot find project " + target
  }

  /** Template `n` is found and renders for every one of its targets. */
  predicate Renders(n: string, templates: seq<TemplateConfig>, loaded: seq<Project>) {
    FindTemplate(templates, n).Some? &&
    var t := FindTemplate(templates, n).value;
    RenderTargets(t, n, Targets(t.projects, loaded), loaded).Ok?
  }

  /** The renderings of the template named `n`. */
  function RenderingsOf(n: string, templates: seq<TemplateConfig>, loaded: seq<Project>): seq<Render>
    requires Renders(n, templates, loaded)
  {
    var t := FindTemplate(templates, n).value;
    RenderTargets(t, n, Targets(t.projects, loaded), loaded).value
  }

  /** The renderings of each named template, one template after another. */
  function Joined(names: seq<string>, templates: seq<TemplateConfig>, loaded: seq<Project>): seq<Render>
    requires forall k :: 0 <= k < |names| ==> Renders(names[k], templates, loaded)
  {
    if names == [] then [] else RenderingsOf(names[0], templates, loaded) + Joined(names[1..], templates, loaded)
  }

  /** The tail of a concatenation, index by index. */
  lemma AppendedTail(a: seq<Render>, b: seq<Render>)
    ensures forall k :: |a| <= k < |a| + |b| ==> (a + b)[k] == b[k - |a|]
  {
  }

  /** `names[i]` names no template, and every name before it renders. */
  predicate FirstNotFound(names: seq<string>, templates: seq<TemplateConfig>, loaded: seq<Project>, i: int)
    requires 0 <= i < |names|
  {
    FindTemplate(templates, names[i]).None? && forall j :: 0 <= j < i ==> Renders(names[j], templates, loaded)
  }

  /** The renderings of the template named `n` for its targets; no template of that name throws. */
  function RenderOne(n: string, templates: seq<TemplateConfig>, loaded: seq<Project>): (r: Result<seq<Render>, string>)
    ensures r.Ok? <==> Renders(n, templates, loaded)
    ensures r.Ok? ==> r.value == RenderingsOf(n, templates, loaded)
    ensures FindTemplate(templates, n).None? ==> r == Err("unable to find template " + n)
    ensures r.Ok? ==> forall k :: 0 <= k < |r.value| ==>
      && r.value[k].template == n
      && (exists t :: t in templates && t.name == n && t.file.Some?)
      && (r.value[k].project == "" || r.value[k].project in NamesOf(loaded))
  {
    match FindTemplate(templates, n)
    case None => Err("unable to find template " + n)
    case Some(t) => RenderTargets(t, n, Targets(t.projects, loaded), loaded)
  }

  /** The renderings of every requested template in turn; a name with no template throws. */
  function RenderAll(names: seq<string>, templates: seq<TemplateConfig>, loaded: seq<Project>): (r: Result<seq<Render>, string>)
    ensures r.Ok? ==> forall k :: 0 <= k < |r.value| ==>
      && r.value[k].template in names
      && (exists t :: t in templates && t.name == r.value[k].template && t.file.Some?)
      && (r.value[k].project == "" || r.value[k].project in NamesOf(loaded))
  {
    if names == [] then Ok([])
    else
      var head := RenderOne(names[0], templates, loaded);
      var rest := RenderAll(names[1..], templates, loaded);
      assert forall k :: 0 < k < |names| ==> names[1..][k - 1] == names[k];
      if head.Err? then Err(head.error)
      else
        if rest.Ok? then
          AppendedTail(head.value, rest.value);
          Then(head.value, rest)
        else Then(head.value, rest)
  }

  /** The plan succeeds exactly when every requested template is found and renders for all its targets. */
  lemma {:induction false} RenderAllSucceeds(names: seq<string>, templates: seq<TemplateConfig>, loaded: seq<Project>)
    ensures RenderAll(names, templates, loaded).Ok? <==> forall k :: 0 <= k < |names| ==> Renders(names[k], templates, loaded)
  {
    if names != [] {
      RenderAllSucceeds(names[1..], templates, loaded);
      assert forall k :: 0 < k < |names| ==> names[1..][k - 1] == names[k];
    }
  }

  /** A successful plan is each requested template's renderings, in the order requested. */
  lemma {:induction false} RenderAllJoined(names: seq<string>, templates: seq<TemplateConfig>, loaded: seq<Project>)
    requires RenderAll(names, templates, loaded).Ok?
    ensures forall k :: 0 <= k < |names| ==> Renders(names[k], templates, loaded)
    ensures RenderAll(names, templates, loaded).value == Joined(names, templates, loaded)
  {
    RenderAllSucceeds(names, templates, loaded);
    if names != [] {
      RenderAllJoined(names[1..], templates, loaded);
    }
  }

  /** The first requested name with no template, all before it rendering, fails the plan with "unable to find template". */
  lemma {:induction false} RenderAllNotFound(names: seq<string>, templates: seq<TemplateConfig>, loaded: seq<Project>, i: nat)
    requires i < |names| && FirstNotFound(names, templates, loaded, i)
    ensures RenderAll(names, templates, loaded) == Err("unable to find template " + names[i])
  {
    if i > 0 {
      assert Renders(names[0], templates, loaded);
      assert FirstNotFound(names[1..], templates, loaded, i - 1) by {
        assert forall j :: 0 <= j < i - 1 ==> names[1..][j] == names[j + 1];
      }
      RenderAllNotFound(names[1..], templates, loaded, i - 1);
    }
  }

  /** The configuration `Load` reads and the result it replaces it with. */
  datatype Config = Config(
    projects: seq<Project>,
    names: seq<string>,
    paths: seq<string>,
    groups: seq<string>,
    templates: seq<TemplateConfig>,
    digraphs: map<string, seq<StepConfig>>)

  /** The `Projects` object: its configuration, which `Load` replaces with what it selects. */
  class Projects {
    var config: Config

    constructor (cfg: Config)
      ensures config == cfg
    {
      config := cfg;
    }

    /**
     * `Load`: the projects the groups select and `without` does not
     * exclude, each with "all" appended to its groups, with their names
     * and paths index for index, and the groups seen; the result replaces
     * the configuration.
     */
    method Load(opts: LoadOptions, eval: string -> Option<bool>) returns (result: Config)
      modifies this
      ensures config == result
      ensures result.projects == Selected(old(config).projects, DefaultGroups(opts.groups), WithoutList(opts.without), eval)
      ensures result.names == NamesOf(result.projects) && result.paths == PathsOf(result.projects)
      ensures result.groups == SeenGroups(result.projects)
      ensures result.templates == old(config).templates && result.digraphs == old(config).digraphs
    {
      var groups := DefaultGroups(opts.groups);
      var without := WithoutList(opts.without);
      var all, templates, digraphs := config.projects, config.templates, config.digraphs;
      var projects, names, paths, seen := [], [], [], ["all"];
      for i := 0 to |all|
        invariant projects == Selected(all[..i], groups, without, eval)
        invariant names == NamesOf(projects) && paths == PathsOf(projects) && seen == SeenGroups(projects)
      {
        var project := all[i];
        project := project.(groups := project.groups + ["all"]);
        SelectedStep(all, i, groups, without, eval);
        if Include(project, groups, Undefined, Strs(without), eval) {
          Appended(projects, project);
          projects := projects + [project];
          names := names + [project.name];
          paths := paths + [project.path];
          seen := Accumulate(seen, project.groups);
        }
      }
      assert all[..|all|] == all;
      result := Config(projects, names, paths, seen, templates, digraphs);
      config := result;
    }

    /**
     * `GetDiGraph`: the steps of the named digraph, or the error for an
     * unknown name, for the first step without an `id` or a `project`, or
     * for IDs that repeat.
     */
    function GetDiGraph(name: string): (r: Result<seq<StepConfig>, DiGraphError>)
      reads this
      ensures r.Ok? <==> (
        && name in config.digraphs
        && (forall i :: 0 <= i < |config.digraphs[name]| ==> WellFormed(config.digraphs[name][i]))
        && Traversal.NoDuplicates(StepIds(config.digraphs[name])))
      ensures r.Ok? ==> r.value == config.digraphs[name]
      ensures r == Err(NotFound(name)) <==> name !in config.digraphs
      ensures name in config.digraphs && FirstMissing(config.digraphs[name], name).Some? ==>
        r == Err(FirstMissing(config.digraphs[name], name).value)
      ensures (&& name in config.digraphs
               && (forall i :: 0 <= i < |config.digraphs[name]| ==> WellFormed(config.digraphs[name][i]))
               && !Traversal.NoDuplicates(StepIds(config.digraphs[name]))) ==>
        r.Err? && r.error.DuplicateIds? && r.error.name == name
      ensures r.Err? && r.error.DuplicateIds? ==> name in config.digraphs && r.error.ids != [] && forall x :: x in r.error.ids <==> multiset(StepIds(config.digraphs[name]))[x] > 1
    {
      if name !in config.digraphs then Err(NotFound(name))
      else
        var steps := config.digraphs[name];
        match FirstMissing(steps, name)
        case Some(e) => Err(e)
        case None =>
          var repeated := Duplicates(StepIds(steps));
          if repeated != [] then Err(DuplicateIds(name, repeated)) else Ok(steps)
    }

    /**
     * The rendering plan of `Template`: the requested templates, read from
     * the configuration before it loads every project with the default
     * options, each for its targets among the loaded projects.
     */
    method Template(opt: Arg, eval: string -> Option<bool>) returns (r: Result<seq<Render>, string>)
      modifies this
      ensures config.projects == Selected(old(config).projects, Strs(["all"]), [], eval)
      ensures config.names == NamesOf(config.projects) && config.paths == PathsOf(config.projects)
      ensures config.groups == SeenGroups(config.projects)
      ensures config.templates == old(config).templates && config.digraphs == old(config).digraphs
      ensures r == RenderAll(Requested(opt, old(config).templates), old(config).templates, config.projects)
    {
      var names := Requested(opt, config.templates);
      var _ := Load(LoadOptions(Undefined, Undefined), eval);
      r := Plan(names, config.templates, config.projects);
    }
  }

  /** Selecting from one more project keeps that project, with "all" appended, when it is included. */
  lemma SelectedStep(all: seq<Project>, i: nat, groups: Arg, without: seq<string>, eval: string -> Option<bool>)
    requires i < |all|
    ensures var p := WithAll(all[i]);
      Selected(all[..i + 1], groups, without, eval)
        == Selected(all[..i], groups, without, eval) + (if Include(p, groups, Undefined, Strs(without), eval) then [p] else [])
  {
    assert all[..i + 1][..i] == all[..i];
  }

  /** The names, paths and groups of one more project extend those of the others. */
  lemma Appended(ps: seq<Project>, p: Project)
    ensures NamesOf(ps + [p]) == NamesOf(ps) + [p.name] && PathsOf(ps + [p]) == PathsOf(ps) + [p.path]
    ensures SeenGroups(ps + [p]) == AddNew(SeenGroups(ps), p.groups)
  {
    assert (ps + [p])[..|ps|] == ps;
  }

  /** `seen` followed by each group not seen yet (the inner loop of `Load`). */
  method Accumulate(seen: seq<string>, groups: seq<string>) returns (r: seq<string>)
    ensures r == AddNew(seen, groups)
  {
    r := seen;
    for j := 0 to |groups|
      invariant r == AddNew(seen, groups[..j])
    {
      assert groups[..j + 1][..j] == groups[..j];
      if groups[j] !in r {
        r := r + [groups[j]];
      }
    }
    assert groups[..|groups|] == groups;
  }

  /** The loops of `Template` over the requested templates and their targets, stopping at the first throw. */
  method Plan(names: seq<string>, templates: seq<TemplateConfig>, loaded: seq<Project>) returns (r: Result<seq<Render>, string>)
    ensures r == RenderAll(names, templates, loaded)
  {
    var done: seq<Render> := [];
    assert names[0..] == names;
    ThenNothing(RenderAll(names, templates, loaded));
    for i := 0 to |names|
      invariant RenderAll(names, templates, loaded) == Then(done, RenderAll(names[i..], templates, loaded))
    {
      assert names[i..][0] == names[i] && names[i..][1..] == names[i + 1..];
      var found := FindTemplate(templates, names[i]);
      if found.None? {
        return Err("unable to find template " + names[i]);
      }
      var t := found.value;
      var targets := Targets(t.projects, loaded);
      var part := PlanTargets(t, names[i], targets, loaded);
      if part.Err? {
        return Err(part.error);
      }
      ThenThen(done, part.value, RenderAll(names[i + 1..], templates, loaded));
      done := done + part.value;
    }
    assert names[|names|..] == [] && done + [] == done;
    r := Ok(done);
  }

  /** The inner loop of `Template` over one template's targets. */
  method PlanTargets(t: TemplateConfig, asked: string, targets: seq<string>, loaded: seq<Project>) returns (r: Result<seq<Render>, string>)
    ensures r == RenderTargets(t, asked, targets, loaded)
  {
    var done: seq<Render> := [];
    var loadedNames := NamesOf(loaded);
    assert targets[0..] == targets;
    ThenNothing(RenderTargets(t, asked, targets, loaded));
    for j := 0 to |targets|
      invariant RenderTargets(t, asked, targets, loaded) == Then(done, RenderTargets(t, asked, targets[j..], loaded))
    {
      assert targets[j..][0] == targets[j] && targets[j..][1..] == targets[j + 1..];
      if targets[j] != "" && targets[j] !in loadedNames {
        return Err("failed to template configuration " + t.name + ": unable to render template " + asked + ": cannot find project " + targets[j]);
      }
      if t.file.None? {
        return Err("no template file for " + t.name + " specified");
      }
      ThenThen(done, [Render(t.name, targets[j])], RenderTargets(t, asked, targets[j + 1..], loaded));
      done := done + [Render(t.name, targets[j])];
    }
    assert targets[|targets|..] == [] && done + [] == done;
    r := Ok(done);
  }
}
