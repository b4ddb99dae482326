/**
 * The text handling of gitcommands.js: the option strings `Fetch`, `Pull`,
 * `Tag`, `Push` and `Clone` run git with, the lookup of a project's remote,
 * and the parsers of the output of `git status`, `git show-ref`,
 * `git branch` and `git tag`. The subprocesses are not modelled: a
 * command's output is an input string, and whether a command line succeeds
 * is an input function of that line.
 */
module GitCommands {
  import opened Wrappers
  import opened Text

  // ----- Option strings -----

  /** The long options the commands use. */
  datatype Key =
    | All | AllTags | Unshallow | Depth | List | Delete | Annotate | Message | Sign
    | LocalUser | Force | DryRun | Mirror | Repo | SetUpstream | Branch | Bare

  /** How git spells an option. */
  function Spelling(k: Key): string {
    match k
    case All => "--all"
    case AllTags => "--tags"
    case Unshallow => "--unshallow"
    case Depth => "--depth"
    case List => "--list"
    case Delete => "--delete"
    case Annotate => "--annotate"
    case Message => "--message"
    case Sign => "--sign"
    case LocalUser => "--local-user"
    case Force => "--force"
    case DryRun => "--dry-run"
    case Mirror => "--mirror"
    case Repo => "--repo"
    case SetUpstream => "--set-upstream"
    case Branch => "--branch"
    case Bare => "--bare"
  }

  /** One option of a git command line, as the source writes it. */
  datatype Opt =
    | Flag(name: Key)                    // ` --all`
    | Valued(name: Key, value: string)   // ` --depth 1`: the option, then its value
    | Assigned(name: Key, value: string) // ` --repo=url`
    | Operand(value: string)             // ` origin`: a remote or a tag name

  /** The text an option appends: a space, then the option. */
  function Render(o: Opt): (s: string)
    ensures s != [] && s[0] == ' '
  {
    match o
    case Flag(n) => " " + Spelling(n)
    case Valued(n, v) => " " + Spelling(n) + " " + v
    case Assigned(n, v) => " " + Spelling(n) + "=" + v
    case Operand(v) => " " + v
  }

  /** The options written one after another. */
  function Line(opts: seq<Opt>): (s: string)
    ensures s == [] || s[0] == ' '
  {
    if opts == [] then "" else Render(opts[0]) + Line(opts[1..])
  }

  /** The words an option puts on the command line. */
  function Tokens(o: Opt): seq<string> {
    match o
    case Flag(n) => [Spelling(n)]
    case Valued(n, v) => [Spelling(n), v]
    case Assigned(n, v) => [Spelling(n) + "=" + v]
    case Operand(v) => [v]
  }

  /** The words of all the options, in order. */
  function AllTokens(opts: seq<Opt>): seq<string> {
    if opts == [] then [] else Tokens(opts[0]) + AllTokens(opts[1..])
  }

  /** A non-empty string without whitespace. */
  predicate IsWord(w: string) {
    w != [] && forall c :: c in w ==> !IsWhitespace(c)
  }

  /** Every word the options put on the line is a word of its own. */
  predicate AllWords(opts: seq<Opt>) {
    forall i :: 0 <= i < |opts| ==> forall t :: t in Tokens(opts[i]) ==> IsWord(t)
  }

  /** Appending an option's text extends the line by that option. */
  lemma {:induction false} LineSnoc(opts: seq<Opt>, o: Opt)
    ensures Line(opts + [o]) == Line(opts) + Render(o)
  {
    if opts == [] {
      assert [] + [o] == [o];
      assert Line([o]) == Render(o) + Line([]);
    } else {
      assert (opts + [o])[0] == opts[0] && (opts + [o])[1..] == opts[1..] + [o];
      LineSnoc(opts[1..], o);
      assert Render(opts[0]) + (Line(opts[1..]) + Render(o)) == (Render(opts[0]) + Line(opts[1..])) + Render(o);
    }
  }

  /**
   * The shell splits an option string back into exactly the words of its
   * options, when each option word is a word: the string carries the
   * options and nothing else.
   */
  lemma {:induction false} WordsOfLine(opts: seq<Opt>)
    requires AllWords(opts)
    ensures Words(Line(opts)) == AllTokens(opts)
  {
    if opts == [] {
      assert SplitBy("", IsWhitespace) == [""] && [""][1..] == [];
    } else {
      assert AllWords(opts[1..]) by {
        forall i | 0 <= i < |opts[1..]| ensures forall t :: t in Tokens(opts[1..][i]) ==> IsWord(t) {
          assert opts[1..][i] == opts[i + 1];
        }
      }
      WordsOfLine(opts[1..]);
      WordsOfOption(opts[0], Line(opts[1..]));
    }
  }

  /** One option in front of a line that is empty or starts with a space adds its words in front. */
  lemma WordsOfOption(o: Opt, rest: string)
    requires forall t :: t in Tokens(o) ==> IsWord(t)
    requires rest == [] || rest[0] == ' '
    ensures Words(Render(o) + rest) == Tokens(o) + Words(rest)
  {
    match o
    case Flag(n) =>
      assert IsWord(Spelling(n)) by { assert Spelling(n) in Tokens(o); }
      SpacedWord(Spelling(n), rest);
    case Operand(v) =>
      assert IsWord(v) by { assert v in Tokens(o); }
      SpacedWord(v, rest);
    case Assigned(n, v) =>
      var w := Spelling(n) + "=" + v;
      assert IsWord(w) by { assert w in Tokens(o); }
      assert Render(o) + rest == " " + w + rest;
      SpacedWord(w, rest);
    case Valued(n, v) =>
      assert IsWord(Spelling(n)) && IsWord(v) by { assert Spelling(n) in Tokens(o) && v in Tokens(o); }
      WordsOfPair(Spelling(n), v, rest);
  }

  /** A flag and its value, in front of a line that is empty or starts with a space, are its first two words. */
  lemma WordsOfPair(n: string, v: string, rest: string)
    requires IsWord(n) && IsWord(v)
    requires rest == [] || rest[0] == ' '
    ensures Words(" " + n + " " + v + rest) == [n, v] + Words(rest)
  {
    SpacedWord(v, rest);
    assert " " + n + " " + v + rest == " " + n + (" " + v + rest);
    SpacedWord(n, " " + v + rest);
  }

  /** The options are there flag by flag. */
  predicate Has(opts: seq<Opt>, flag: Key) {
    Flag(flag) in opts
  }

  /** Appending an option to the line so far: the text the source appends, and the option it stands for. */
  method Append(opt: string, ghost args: seq<Opt>, o: Opt) returns (opt': string, ghost args': seq<Opt>)
    requires opt == Line(args)
    ensures opt' == opt + Render(o) && args' == args + [o] && opt' == Line(args')
  {
    LineSnoc(args, o);
    opt', args' := opt + Render(o), args + [o];
  }

  /** The command that enters a project's directory. */
  function Enter(path: string): string {
    "cd \"" + path + "/\""
  }

  /** A string option that counts: present and non-empty. */
  predicate IsSet(s: Option<string>) {
    s.Some? && s.value != ""
  }

  // ----- Fetch -----

  /**
   * The options of `git fetch`: every remote and the tags exactly when
   * asked for, and `--unshallow`, which takes the place of a depth; a
   * depth only when it is a non-empty string; never an operand.
   */
  function FetchArgs(all: bool, tags: bool, unshallow: bool, depth: Option<string>): (r: seq<Opt>)
    ensures Has(r, All) <==> all
    ensures Has(r, AllTags) <==> tags
    ensures Has(r, Unshallow) <==> unshallow
    ensures forall v :: Valued(Depth, v) in r <==> !unshallow && IsSet(depth) && v == depth.value
    ensures forall v :: Operand(v) !in r
  {
    (if all then [Flag(All)] else [])
    + (if tags then [Flag(AllTags)] else [])
    + (if unshallow then [Flag(Unshallow)] else if IsSet(depth) then [Valued(Depth, depth.value)] else [])
  }

  /**
   * `Fetch`: the option string, built flag by flag, and the shell command:
   * one fetch with those options, then, unless every remote is fetched,
   * a second fetch of the named remote.
   */
  method Fetch(path: string, remote: string, all: bool, unshallow: bool, depth: Option<string>, tags: bool)
    returns (opt: string, cmd: string)
    ensures opt == Line(FetchArgs(all, tags, unshallow, depth))
    ensures all ==> cmd == Enter(path) + " && git fetch" + opt
    ensures !all ==> cmd == Enter(path) + " && git fetch" + opt + (" && git fetch" + opt + " " + remote)
  {
    opt := "";
    ghost var args: seq<Opt> := [];
    if all {
      opt, args := Append(opt, args, Flag(All));
    }
    if tags {
      opt, args := Append(opt, args, Flag(AllTags));
    }
    if unshallow {
      opt, args := Append(opt, args, Flag(Unshallow));
    } else if depth.Some? && depth.value != "" {
      opt, args := Append(opt, args, Valued(Depth, depth.value));
    }
    assert args == FetchArgs(all, tags, unshallow, depth);
    cmd := Enter(path) + " && git fetch" + opt;
    if !all {
      cmd := cmd + (" && git fetch" + opt + " " + remote);
    }
  }

  // ----- Pull -----

  /**
   * The options of `git pull`: every remote, or else the named remote as
   * the one operand; a depth only for a repository that is not bare and
   * a non-empty depth string.
   */
  function PullArgs(all: bool, bare: bool, depth: Option<string>, remote: string): (r: seq<Opt>)
    ensures Has(r, All) <==> all
    ensures forall v :: Valued(Depth, v) in r <==> !bare && IsSet(depth) && v == depth.value
    ensures forall v :: Operand(v) in r <==> !all && v == remote
  {
    (if all then [Flag(All)] else [])
    + (if !bare && IsSet(depth) then [Valued(Depth, depth.value)] else [])
    + (if all then [] else [Operand(remote)])
  }

  /** `Pull`: the option string, built part by part, and the shell command that pulls with it. */
  method Pull(path: string, remote: string, all: bool, bare: bool, depth: Option<string>)
    returns (opt: string, cmd: string)
    ensures opt == Line(PullArgs(all, bare, depth, remote))
    ensures cmd == Enter(path) + " && git pull" + opt
  {
    opt := "";
    ghost var args: seq<Opt> := [];
    if all {
      opt, args := Append(opt, args, Flag(All));
    }
    if !bare {
      if depth.Some? && depth.value != "" {
        opt, args := Append(opt, args, Valued(Depth, depth.value));
      }
    }
    if !all {
      opt, args := Append(opt, args, Operand(remote));
    }
    assert args == PullArgs(all, bare, depth, remote);
    cmd := Enter(path) + " && git pull" + opt;
  }

  // ----- Tag -----

  /** The options of `Tag`; `localUser` and `message` count when they are non-empty. */
  datatype TagOptions = TagOptions(
    list: Option<string>,
    delete: bool,
    annotate: bool,
    sign: bool,
    localUser: string,
    name: Option<string>,
    message: string,
    force: bool)

  /** The modes of `Tag`, in the order the source tries them. */
  datatype TagMode = Listing | Deleting | Annotating | Signing | SigningAs | Plain

  /** The first mode the options ask for. */
  function ModeOf(o: TagOptions): TagMode {
    if o.list.Some? then Listing
    else if o.delete then Deleting
    else if o.annotate then Annotating
    else if o.sign then Signing
    else if o.localUser != "" then SigningAs
    else Plain
  }

  /** `--force` when asked for. */
  function Forced(force: bool): seq<Opt> {
    When(force, Flag(Force))
  }

  /** A message in double quotes. */
  function Quoted(message: string): string {
    "\"" + message + "\""
  }

  /**
   * The options of `git tag`, or the error `Tag` throws. Listing wins
   * over every other mode and needs no name; every other mode throws
   * "invalid tag" unless the name is a non-empty string, and otherwise
   * has the name as its one operand, the flag of the first mode asked for
   * and no other mode's flag, a message only when annotating, and
   * `--force` when asked for except when deleting.
   */
  function TagArgs(o: TagOptions): (r: Result<seq<Opt>, string>)
    ensures ModeOf(o) == Listing ==>
      && r.Ok? && Has(r.value, List) && !Has(r.value, Force)
      && (forall v :: Operand(v) in r.value <==> v == o.list.value && v != "")
    ensures ModeOf(o) != Listing ==> (r.Ok? <==> IsSet(o.name))
    ensures r.Err? ==> r.error == "invalid tag"
    ensures r.Ok? && ModeOf(o) != Listing ==>
      && (forall v :: Operand(v) in r.value <==> v == o.name.value)
      && (Has(r.value, Force) <==> o.force && ModeOf(o) != Deleting)
      && (Has(r.value, Delete) <==> ModeOf(o) == Deleting)
      && (Has(r.value, Annotate) <==> ModeOf(o) == Annotating)
      && (Has(r.value, Sign) <==> ModeOf(o) == Signing)
      && !Has(r.value, List)
      && (forall u :: Valued(LocalUser, u) in r.value <==> ModeOf(o) == SigningAs && u == o.localUser)
      && (forall m :: Valued(Message, m) in r.value <==> ModeOf(o) == Annotating && o.message != "" && m == Quoted(o.message))
  {
    if o.list.Some? then Ok([Flag(List)] + When(o.list.value != "", Operand(o.list.value)))
    else if !IsSet(o.name) then Err("invalid tag")
    else Ok(NamedArgs(o, o.name.value))
  }

  /**
   * The options of a mode other than listing, for the tag `name`: the
   * name as the one operand, the first mode's flag, its message or local
   * user, and `--force` except when deleting.
   */
  function NamedArgs(o: TagOptions, name: string): (r: seq<Opt>)
    requires o.list.None?
    ensures forall v :: Operand(v) in r <==> v == name
    ensures Has(r, Force) <==> o.force && ModeOf(o) != Deleting
    ensures Has(r, Delete) <==> ModeOf(o) == Deleting
    ensures Has(r, Annotate) <==> ModeOf(o) == Annotating
    ensures Has(r, Sign) <==> ModeOf(o) == Signing
    ensures !Has(r, List)
    ensures forall u :: Valued(LocalUser, u) in r <==> ModeOf(o) == SigningAs && u == o.localUser
    ensures forall m :: Valued(Message, m) in r <==> ModeOf(o) == Annotating && o.message != "" && m == Quoted(o.message)
  {
    Head(o, name)
    + When(ModeOf(o) == Annotating && o.message != "", Valued(Message, Quoted(o.message)))
    + When(o.force && ModeOf(o) != Deleting, Flag(Force))
  }

  /** The options a mode other than listing starts with: its flag, if any, then the name. */
  function Head(o: TagOptions, name: string): seq<Opt>
    requires o.list.None?
  {
    match ModeOf(o)
    case Deleting => [Flag(Delete), Operand(name)]
    case Annotating => [Flag(Annotate), Operand(name)]
    case Signing => [Flag(Sign), Operand(name)]
    case SigningAs => [Valued(LocalUser, o.localUser), Operand(name)]
    case Plain => [Operand(name)]
  }

  /**
   * `Tag`: the options of the first mode asked for, built part by part,
   * and the shell command; a mode other than listing throws without a
   * name.
   */
  method Tag(path: string, o: TagOptions) returns (r: Result<string, string>)
    ensures TagArgs(o).Err? ==> r == Err(TagArgs(o).error)
    ensures TagArgs(o).Ok? ==> r == Ok(Enter(path) + " && git tag" + Line(TagArgs(o).value))
  {
    var opt := "";
    ghost var args: seq<Opt> := [];
    if o.list.Some? {
      opt, args := Append(opt, args, Flag(List));
      opt, args := AppendWhen(opt, args, o.list.value != "", Operand(o.list.value));
    } else {
      // every mode but listing starts with the same check of the name
      if o.name.None? || o.name.value == "" {
        return Err("invalid tag");
      }
      opt, args := NamedTag(o);
    }
    assert TagArgs(o).Ok? && TagArgs(o).value == args;
    r := Ok(Enter(path) + " && git tag" + opt);
  }

  /** The options of a mode other than listing, for a valid name. */
  method NamedTag(o: TagOptions) returns (opt: string, ghost args: seq<Opt>)
    requires o.list.None? && IsSet(o.name)
    ensures args == NamedArgs(o, o.name.value) && opt == Line(args)
  {
    opt, args := "", [];
    if o.delete {
      opt, args := Append(opt, args, Flag(Delete));
    } else if o.annotate {
      opt, args := Append(opt, args, Flag(Annotate));
    } else if o.sign {
      opt, args := Append(opt, args, Flag(Sign));
    } else if o.localUser != "" {
      opt, args := Append(opt, args, Valued(LocalUser, o.localUser));
    }
    opt, args := Append(opt, args, Operand(o.name.value));
    assert args == Head(o, o.name.value);
    opt, args := AppendWhen(opt, args, o.annotate && !o.delete && o.message != "", Valued(Message, Quoted(o.message)));
    opt, args := AppendWhen(opt, args, o.force && !o.delete, Flag(Force));
  }

  // ----- Remotes, Push and Clone -----

  /** A configured remote of a project. */
  datatype Remote = Remote(url: string, readOnly: bool)

  /**
   * `_getProjectRemote`: the remote of that name, when the project has a
   * remotes table and the name is in it.
   */
  function ProjectRemote(remotes: Option<map<string, Remote>>, name: string): (r: Option<Remote>)
    ensures r.Some? <==> remotes.Some? && name in remotes.value
    ensures r.Some? ==> r.value == remotes.value[name]
  {
    if remotes.None? then None
    else if name !in remotes.value then None
    else Some(remotes.value[name])
  }

  /** The options of `Push`; `repo` and `setUpstream` count when they are non-empty strings. */
  datatype PushOptions = PushOptions(
    remote: string,
    dryRun: bool,
    mirror: bool,
    all: bool,
    tags: bool,
    force: bool,
    repo: Option<string>,
    setUpstream: Option<string>)

  /**
   * Where `git push` pushes: the remote with `--mirror`, or else with
   * `--all`, or nothing. With `--all` the source writes two spaces before
   * the remote: an empty operand.
   */
  function PushTarget(o: PushOptions): (r: seq<Opt>)
    ensures Has(r, Mirror) <==> o.mirror
    ensures Has(r, All) <==> !o.mirror && o.all
    ensures forall v :: Operand(v) in r <==> (o.mirror || o.all) && (v == o.remote || (!o.mirror && v == ""))
    ensures !Has(r, DryRun) && !Has(r, AllTags) && !Has(r, Force)
    ensures forall v :: Assigned(Repo, v) !in r && Valued(SetUpstream, v) !in r
  {
    if o.mirror then [Operand(o.remote), Flag(Mirror)]
    else if o.all then [Operand(""), Operand(o.remote), Flag(All)]
    else []
  }

  /**
   * The options of `git push` after the target: each flag exactly when
   * asked for, and the repository and upstream only when they are
   * non-empty strings.
   */
  function PushExtras(o: PushOptions): (r: seq<Opt>)
    ensures Has(r, AllTags) <==> o.tags
    ensures Has(r, Force) <==> o.force
    ensures forall v :: Assigned(Repo, v) in r <==> IsSet(o.repo) && v == o.repo.value
    ensures forall v :: Valued(SetUpstream, v) in r <==> IsSet(o.setUpstream) && v == o.setUpstream.value
    ensures !Has(r, DryRun) && !Has(r, Mirror) && !Has(r, All)
    ensures forall v :: Operand(v) !in r
  {
    When(o.tags, Flag(AllTags))
    + When(o.force, Flag(Force))
    + When(IsSet(o.repo), Assigned(Repo, o.repo.GetOr("")))
    + When(IsSet(o.setUpstream), Valued(SetUpstream, o.setUpstream.GetOr("")))
  }

  /** The option alone when the condition holds, and nothing otherwise. */
  function When(c: bool, x: Opt): (r: seq<Opt>)
    ensures forall y :: y in r <==> c && y == x
  {
    if c then [x] else []
  }

  /** The options of `git push`: a dry run when asked for, the target, then the rest. */
  function PushArgs(o: PushOptions): (r: seq<Opt>)
    ensures Has(r, DryRun) <==> o.dryRun
    ensures Has(r, Mirror) <==> o.mirror
    ensures Has(r, All) <==> !o.mirror && o.all
    ensures forall v :: Operand(v) in r <==> (o.mirror || o.all) && (v == o.remote || (!o.mirror && v == ""))
    ensures Has(r, AllTags) <==> o.tags
    ensures Has(r, Force) <==> o.force
    ensures forall v :: Assigned(Repo, v) in r <==> IsSet(o.repo) && v == o.repo.value
    ensures forall v :: Valued(SetUpstream, v) in r <==> IsSet(o.setUpstream) && v == o.setUpstream.value
  {
    When(o.dryRun, Flag(DryRun)) + PushTarget(o) + PushExtras(o)
  }

  /**
   * `Push`: rejected, with nothing run, when the project has no remote of
   * that name or the remote is read-only; otherwise the shell command
   * that pushes with the options, built part by part.
   */
  method Push(remotes: Option<map<string, Remote>>, path: string, o: PushOptions) returns (cmd: Option<string>)
    ensures var remote := ProjectRemote(remotes, o.remote);
      cmd.None? <==> remote.None? || remote.value.readOnly
    ensures cmd.Some? ==> cmd.value == Enter(path) + " && git push" + Line(PushArgs(o))
  {
    var remote := ProjectRemote(remotes, o.remote);
    if remote.None? {
      return None;
    }
    if remote.value.readOnly {
      return None;
    }
    var opt := PushLine(o);
    cmd := Some(Enter(path) + " && git push" + opt);
  }

  /** The option string of `git push`, built part by part. */
  method PushLine(o: PushOptions) returns (opt: string)
    ensures opt == Line(PushArgs(o))
  {
    ghost var args: seq<Opt>;
    opt, args := AppendWhen("", [], o.dryRun, Flag(DryRun));
    opt, args := AppendTarget(opt, args, o);
    opt, args := AppendExtras(opt, args, o);
    assert [] + When(o.dryRun, Flag(DryRun)) == When(o.dryRun, Flag(DryRun));
  }

  /** Appending the target of `Push` to the option string. */
  method AppendTarget(opt: string, ghost args: seq<Opt>, o: PushOptions) returns (opt': string, ghost args': seq<Opt>)
    requires opt == Line(args)
    ensures args' == args + PushTarget(o) && opt' == Line(args')
  {
    opt', args' := opt, args;
    if o.mirror {
      opt', args' := Append(opt', args', Operand(o.remote));
      opt', args' := Append(opt', args', Flag(Mirror));
    } else if o.all {
      opt', args' := Append(opt', args', Operand(""));
      opt', args' := Append(opt', args', Operand(o.remote));
      opt', args' := Append(opt', args', Flag(All));
    }
  }

  /** Appending the options of `Push` after the target. */
  method AppendExtras(opt: string, ghost args: seq<Opt>, o: PushOptions) returns (opt': string, ghost args': seq<Opt>)
    requires opt == Line(args)
    ensures args' == args + PushExtras(o) && opt' == Line(args')
  {
    opt', args' := AppendWhen(opt, args, o.tags, Flag(AllTags));
    opt', args' := AppendWhen(opt', args', o.force, Flag(Force));
    opt', args' := AppendWhen(opt', args', o.repo.Some? && o.repo.value != "", Assigned(Repo, o.repo.GetOr("")));
    opt', args' := AppendWhen(opt', args', o.setUpstream.Some? && o.setUpstream.value != "", Valued(SetUpstream, o.setUpstream.GetOr("")));
    Regroup(args, When(o.tags, Flag(AllTags)), When(o.force, Flag(Force)),
      When(IsSet(o.repo), Assigned(Repo, o.repo.GetOr(""))),
      When(IsSet(o.setUpstream), Valued(SetUpstream, o.setUpstream.GetOr(""))));
  }

  /** Options appended four times over are the four parts appended at once. */
  lemma Regroup(x: seq<Opt>, a: seq<Opt>, b: seq<Opt>, c: seq<Opt>, d: seq<Opt>)
    ensures x + a + b + c + d == x + (a + b + c + d)
  {
  }

  /** Appending an option to the line so far when a condition holds. */
  method AppendWhen(opt: string, ghost args: seq<Opt>, when: bool, o: Opt) returns (opt': string, ghost args': seq<Opt>)
    requires opt == Line(args)
    ensures args' == args + When(when, o) && opt' == Line(args')
  {
    opt', args' := opt, args;
    if when {
      opt', args' := Append(opt, args, o);
    }
  }

  /** The options of `Clone`; `branch`, `depth` and `hash` count when they are non-empty. */
  datatype CloneOptions = CloneOptions(remote: string, mirror: bool, branch: string, bare: bool, depth: string, hash: string)

  /**
   * The options of `git clone`: a mirror ignores the branch, bareness and
   * depth; otherwise the branch when there is one, and either `--bare` or
   * the depth when there is one. A bare clone is written ` --bare ` with a
   * trailing space: an empty operand.
   */
  function CloneArgs(o: CloneOptions): (r: seq<Opt>)
    ensures o.mirror ==> r == [Flag(Mirror)]
    ensures Has(r, Mirror) <==> o.mirror
    ensures !o.mirror ==>
      && (forall b :: Valued(Branch, b) in r <==> o.branch != "" && b == o.branch)
      && (Has(r, Bare) <==> o.bare)
      && (forall d :: Valued(Depth, d) in r <==> !o.bare && o.depth != "" && d == o.depth)
  {
    if o.mirror then [Flag(Mirror)]
    else
      (if o.branch != "" then [Valued(Branch, o.branch)] else [])
      + (if o.bare then [Flag(Bare), Operand("")] else if o.depth != "" then [Valued(Depth, o.depth)] else [])
  }

  /** The shell command of a clone: clone the remote's URL into the path, then reset to the hash when there is one. */
  function CloneLine(o: CloneOptions, url: string, path: string): string {
    "git clone " + Line(CloneArgs(o)) + " " + url + " " + path
      + (if o.hash != "" then " && git reset --hard " + o.hash else "")
  }

  /** The options of the second attempt: the remote, bareness and depth only. */
  function Retry(o: CloneOptions): (r: CloneOptions)
    ensures !r.mirror && r.branch == "" && r.hash == ""
    ensures r.bare == o.bare && r.depth == o.depth && r.remote == o.remote
  {
    CloneOptions(o.remote, false, "", o.bare, o.depth, "")
  }

  /** The clone command, its options built part by part. */
  method CloneCommand(o: CloneOptions, url: string, path: string) returns (cmd: string)
    ensures cmd == CloneLine(o, url, path)
  {
    var opt := "";
    ghost var args: seq<Opt> := [];
    if o.mirror {
      opt, args := Append(opt, args, Flag(Mirror));
    } else {
      if o.branch != "" {
        opt, args := Append(opt, args, Valued(Branch, o.branch));
      }
      if o.bare {
        opt, args := Append(opt, args, Flag(Bare));
        opt, args := Append(opt, args, Operand(""));
      } else {
        if o.depth != "" {
          opt, args := Append(opt, args, Valued(Depth, o.depth));
        }
      }
    }
    assert args == CloneArgs(o);
    cmd := "git clone " + opt + " " + url + " " + path;
    if o.hash != "" {
      cmd := cmd + " && git reset --hard " + o.hash;
    }
  }

  /**
   * `Clone`: rejected, with nothing run, when the project has no remote
   * of that name; otherwise it runs the clone command, and when that fails
   * and a branch was asked for, tries once more with the remote, bareness
   * and depth only. It succeeds when the last command run succeeds.
   */
  method Clone(remotes: Option<map<string, Remote>>, path: string, o: CloneOptions, succeeds: string -> bool)
    returns (ok: bool, cmds: seq<string>)
    ensures ProjectRemote(remotes, o.remote).None? ==> !ok && cmds == []
    ensures ProjectRemote(remotes, o.remote).Some? ==>
      var url := ProjectRemote(remotes, o.remote).value.url;
      && |cmds| == (if !succeeds(CloneLine(o, url, path)) && o.branch != "" then 2 else 1)
      && cmds[0] == CloneLine(o, url, path)
      && (|cmds| == 2 ==> cmds[1] == CloneLine(Retry(o), url, path))
      && (ok <==> succeeds(cmds[|cmds| - 1]))
    decreases if o.branch != "" then 1 else 0
  {
    var remote := ProjectRemote(remotes, o.remote);
    if remote.None? {
      return false, [];
    }
    var cmd := CloneCommand(o, remote.value.url, path);
    cmds := [cmd];
    if succeeds(cmd) {
      return true, cmds;
    }
    if o.branch != "" {
      var again, more := Clone(remotes, path, Retry(o), succeeds);
      return again, cmds + more;
    }
    ok := false;
  }
}
