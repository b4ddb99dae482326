/**
 * The parsers of gitcommands.js over what git prints: the lines
 * `filterGitOutput` logs, and the reports of `Status`, `Tags`,
 * `LocalBranches`, `RemoteBranches` and `FindLatestTag`. The output of git
 * is an input string; a regular expression is an input predicate on a
 * line.
 */
module GitOutput {
  import opened Wrappers
  import opened Text

  // ----- filterGitOutput -----

  /** A line `filterGitOutput` logs: not empty, and not git's up-to-date notice unless verbose. */
  predicate Shown(line: string, verbose: bool) {
    line != "" && (verbose || line != "Already up to date.")
  }

  /** The shown lines among `lines`, in order and with their repeats. */
  function ShownLines(lines: seq<string>, verbose: bool): seq<string> {
    if lines == [] then []
    else
      var last := lines[|lines| - 1];
      ShownLines(lines[..|lines| - 1], verbose) + (if Shown(last, verbose) then [last] else [])
  }

  /** A line is listed exactly when it is a shown line of the input, and at most as often as it occurs there. */
  lemma {:induction false} ShownLinesMembers(lines: seq<string>, verbose: bool)
    ensures forall x :: x in ShownLines(lines, verbose) <==> x in lines && Shown(x, verbose)
    ensures multiset(ShownLines(lines, verbose)) <= multiset(lines)
    ensures |ShownLines(lines, verbose)| <= |lines|
  {
    if lines != [] {
      var init := lines[..|lines| - 1];
      ShownLinesMembers(init, verbose);
      assert lines == init + [lines[|lines| - 1]];
    }
  }

  /**
   * `filterGitOutput`: nothing for output that is not a string; otherwise
   * the shown lines of the output, each whole, in the order and with the
   * repeats of the output.
   */
  method FilterGitOutput(verbose: bool, stdout: Option<string>) returns (logged: seq<string>)
    ensures stdout.None? ==> logged == []
    ensures stdout.Some? ==> logged == ShownLines(Split(stdout.value, '\n'), verbose)
  {
    logged := [];
    if stdout.None? {
      return;
    }
    var lines := Split(stdout.value, '\n');
    for i := 0 to |lines|
      invariant logged == ShownLines(lines[..i], verbose)
    {
      assert lines[..i + 1][..i] == lines[..i];
      if lines[i] == "" {
        continue;
      }
      if !verbose {
        if lines[i] == "Already up to date." {
          continue;
        }
      }
      logged := logged + [lines[i]];
    }
    assert lines[..|lines|] == lines;
  }

  // ----- Status -----

  /** What a change is: a modified or deleted tracked file, or an untracked one. */
  datatype ChangeState = Modified | Untracked

  /** One change `Status` reports. */
  datatype Change = Change(state: ChangeState, path: string)

  /** The report of `Status`; `detached` is the commit a detached head is at. */
  datatype StatusReport = StatusReport(branch: string, changes: seq<Change>, detached: Option<string>)

  /** The part of the output of `git status` a line is in, as far as `Status` follows it. */
  datatype Section = Preamble | NotStaged | UntrackedFiles

  /** The line of a detached head. */
  const DetachedPrefix: string := "HEAD detached at "

  /** The line of the current branch. */
  const BranchPrefix: string := "On branch "

  /** A line that names the branch or the detached head; `Status` takes nothing else from it. */
  predicate IsHeadLine(line: string) {
    StartsWith(line, DetachedPrefix) || StartsWith(line, BranchPrefix)
  }

  /** The section a line leaves the parser in: each header opens its section, any other line keeps it. */
  function SectionAfter(section: Section, line: string): Section {
    if line == "Changes not staged for commit:" then NotStaged
    else if line == "Untracked files:" then UntrackedFiles
    else section
  }

  /**
   * The change a line reports in a section: among the changes not staged,
   * a line of exactly two words whose first is `modified:` or `deleted:`;
   * among the untracked files, a line of exactly one word.
   */
  function ChangeIn(section: Section, line: string): Option<Change> {
    var words := Words(line);
    match section
    case NotStaged =>
      if |words| == 2 && (words[0] == "modified:" || words[0] == "deleted:") then Some(Change(Modified, words[1])) else None
    case UntrackedFiles =>
      if |words| == 1 then Some(Change(Untracked, words[0])) else None
    case Preamble => None
  }

  /** What `Status` has read so far: the section it is in and the report. */
  datatype Reading = Reading(section: Section, report: StatusReport)

  /** The reading after one more line. */
  function ReadLine(r: Reading, line: string): Reading {
    if StartsWith(line, DetachedPrefix) then r.(report := r.report.(detached := Some(line[|DetachedPrefix|..])))
    else if StartsWith(line, BranchPrefix) then r.(report := r.report.(branch := line[|BranchPrefix|..]))
    else
      var section := SectionAfter(r.section, line);
      var found := ChangeIn(section, line);
      Reading(section, r.report.(changes := r.report.changes + (if found.Some? then [found.value] else [])))
  }

  /** The reading after the lines, from an empty report in the preamble. */
  function ReadLines(lines: seq<string>): Reading {
    if lines == [] then Reading(Preamble, StatusReport("", [], None))
    else ReadLine(ReadLines(lines[..|lines| - 1]), lines[|lines| - 1])
  }

  /**
   * `Status`: when verbose, an empty report without a detached head;
   * otherwise the report read line by line from the output of `git status`.
   */
  method Status(stdout: string, verbose: bool) returns (report: StatusReport)
    ensures verbose ==> report == StatusReport("", [], None)
    ensures !verbose ==> report == ReadLines(Split(stdout, '\n')).report
  {
    var changes: seq<Change> := [];
    var branch := "";
    var detached: Option<string> := None;
    if verbose {
      return StatusReport(branch, changes, None);
    }
    var lines := Split(stdout, '\n');
    var section := Preamble;
    for i := 0 to |lines|
      invariant ReadLines(lines[..i]) == Reading(section, StatusReport(branch, changes, detached))
    {
      assert lines[..i + 1][..i] == lines[..i];
      var line := lines[i];
      AtStart(line, DetachedPrefix);
      AtStart(line, BranchPrefix);
      if IndexOf(line, DetachedPrefix) == 0 {
        ReplacePrefix(line, DetachedPrefix);
        detached := Some(ReplaceFirst(line, DetachedPrefix, ""));
        continue;
      }
      if IndexOf(line, BranchPrefix) == 0 {
        branch := line[10..];
        continue;
      }
      if line == "Changes not staged for commit:" {
        section := NotStaged;
      } else if line == "Untracked files:" {
        section := UntrackedFiles;
      }
      var words := Words(line);
      if section == NotStaged {
        if |words| == 2 {
          if words[0] == "modified:" {
            changes := changes + [Change(Modified, words[1])];
          } else if words[0] == "deleted:" {
            changes := changes + [Change(Modified, words[1])];
          }
        }
      } else if section == UntrackedFiles {
        if |words| == 1 {
          changes := changes + [Change(Untracked, words[0])];
        }
      }
    }
    assert lines[..|lines|] == lines;
    report := StatusReport(branch, changes, detached);
  }

  /** The position of the last line that starts with `p`, if any. */
  function LastStarting(lines: seq<string>, p: string): (r: Option<nat>)
    ensures r.Some? ==> r.value < |lines| && StartsWith(lines[r.value], p)
    ensures r.Some? ==> forall j :: r.value < j < |lines| ==> !StartsWith(lines[j], p)
    ensures r.None? ==> forall j :: 0 <= j < |lines| ==> !StartsWith(lines[j], p)
  {
    if lines == [] then None
    else if StartsWith(lines[|lines| - 1], p) then Some(|lines| - 1)
    else LastStarting(lines[..|lines| - 1], p)
  }

  /** No line is both the line of a detached head and the line of a branch. */
  lemma HeadLinesDiffer(line: string)
    ensures !(StartsWith(line, DetachedPrefix) && StartsWith(line, BranchPrefix))
  {
    if StartsWith(line, DetachedPrefix) {
      assert line[0] == line[..|DetachedPrefix|][0] == 'H';
    }
  }

  /** The two headers are not head lines. */
  lemma HeadersAreNotHeadLines()
    ensures !IsHeadLine("Changes not staged for commit:") && !IsHeadLine("Untracked files:")
  {
    var h := "Changes not staged for commit:";
    var u := "Untracked files:";
    assert h[..|DetachedPrefix|][0] == 'C' && h[..|BranchPrefix|][0] == 'C';
    assert u[..|BranchPrefix|][0] == 'U';
  }

  /**
   * The branch and the detached head `Status` reports come from the last
   * line of each kind: the branch is what follows `On branch ` on the last
   * such line, or empty without one; the detached head is what follows
   * `HEAD detached at ` on the last such line, or absent without one.
   */
  lemma {:induction false} StatusHead(lines: seq<string>)
    ensures var report := ReadLines(lines).report;
      && report.branch == (match LastStarting(lines, BranchPrefix)
                           case Some(i) => lines[i][|BranchPrefix|..]
                           case None => "")
      && report.detached == (match LastStarting(lines, DetachedPrefix)
                             case Some(i) => Some(lines[i][|DetachedPrefix|..])
                             case None => None)
  {
    if lines != [] {
      StatusHead(lines[..|lines| - 1]);
      HeadLinesDiffer(lines[|lines| - 1]);
    }
  }

  /** The section the last header among the lines opens, or the preamble without one. */
  function LastSection(lines: seq<string>): Section {
    if lines == [] then Preamble
    else SectionAfter(LastSection(lines[..|lines| - 1]), lines[|lines| - 1])
  }

  /** `Status` is in the section of the last header it has read. */
  lemma {:induction false} SectionTracked(lines: seq<string>)
    ensures ReadLines(lines).section == LastSection(lines)
  {
    if lines != [] {
      SectionTracked(lines[..|lines| - 1]);
      HeadersAreNotHeadLines();
    }
  }

  /** Line `i` reports change `c`: it is not a head line, and reports `c` in the section of the last header up to it. */
  predicate ReportsAt(lines: seq<string>, i: int, c: Change) {
    0 <= i < |lines| && !IsHeadLine(lines[i]) && ChangeIn(LastSection(lines[..i + 1]), lines[i]) == Some(c)
  }

  /** One more line adds the change it reports, if any. */
  lemma ChangesStep(lines: seq<string>)
    requires lines != []
    ensures var last := lines[|lines| - 1];
      var found := ChangeIn(LastSection(lines), last);
      ReadLines(lines).report.changes
        == ReadLines(lines[..|lines| - 1]).report.changes + (if !IsHeadLine(last) && found.Some? then [found.value] else [])
  {
    SectionTracked(lines[..|lines| - 1]);
  }

  /**
   * The changes `Status` reports are exactly the changes the lines other
   * than the branch and detached-head lines report in the section of the
   * last header up to and including them.
   */
  lemma {:induction false} StatusChanges(lines: seq<string>)
    ensures forall c :: c in ReadLines(lines).report.changes <==> exists i :: ReportsAt(lines, i, c)
  {
    if lines != [] {
      var init := lines[..|lines| - 1];
      StatusChanges(init);
      forall c ensures c in ReadLines(lines).report.changes <==> exists i :: ReportsAt(lines, i, c) {
        ChangeAdded(lines, c);
        if exists i :: ReportsAt(init, i, c) {
          var i :| ReportsAt(init, i, c);
          ReportsInPrefix(lines, i, c);
        }
        if exists i :: ReportsAt(lines, i, c) {
          var i :| ReportsAt(lines, i, c);
          if i < |init| {
            ReportsInPrefix(lines, i, c);
          }
        }
      }
    }
  }

  /** A change is reported after one more line iff it was before or the last line reports it. */
  lemma ChangeAdded(lines: seq<string>, c: Change)
    requires lines != []
    ensures c in ReadLines(lines).report.changes
      <==> c in ReadLines(lines[..|lines| - 1]).report.changes || ReportsAt(lines, |lines| - 1, c)
  {
    ChangesStep(lines);
    var init, last := lines[..|lines| - 1], lines[|lines| - 1];
    var added := ReadLines(lines).report.changes[|ReadLines(init).report.changes|..];
    assert added == (if !IsHeadLine(last) && ChangeIn(LastSection(lines), last).Some? then [ChangeIn(LastSection(lines), last).value] else []);
    assert lines[..|lines| - 1 + 1] == lines;
  }

  /** A line before the last reports the same change with or without the last line. */
  lemma ReportsInPrefix(lines: seq<string>, i: int, c: Change)
    requires 0 <= i < |lines| - 1
    ensures ReportsAt(lines, i, c) <==> ReportsAt(lines[..|lines| - 1], i, c)
  {
    var init := lines[..|lines| - 1];
    assert lines[i] == init[i] && lines[..i + 1] == init[..i + 1];
  }

  /** A deleted file among the changes not staged is reported as modified. */
  lemma DeletedIsModified(path: string)
    requires IsWordOf(path)
    ensures ChangeIn(NotStaged, " deleted: " + path) == Some(Change(Modified, path))
  {
    assert SplitBy("", IsWhitespace) == [""] && [""][1..] == [];
    SpacedWord(path, "");
    assert " deleted: " + path == " " + "deleted:" + (" " + path + "");
    SpacedWord("deleted:", " " + path + "");
  }

  /** A non-empty string without whitespace. */
  predicate IsWordOf(w: string) {
    w != [] && forall c :: c in w ==> !IsWhitespace(c)
  }

  // ----- Tags -----

  /** `line.split(" ", 2)`: the first two pieces between spaces, at most. */
  function FirstTwo(line: string): (r: seq<string>)
    ensures |r| <= 2
  {
    var parts := Split(line, ' ');
    if |parts| > 2 then parts[..2] else parts
  }

  /** Where git keeps tags. */
  const TagsRef: string := "refs/tags/"

  /** `ref.replace(/^refs\/tags\//, "")`: the reference without the tags directory in front. */
  function TagName(ref: string): (r: string)
    ensures StartsWith(ref, TagsRef) ==> ref == TagsRef + r
    ensures !StartsWith(ref, TagsRef) ==> r == ref
  {
    if StartsWith(ref, TagsRef) then
      assert ref == ref[..|TagsRef|] + ref[|TagsRef|..];
      ref[|TagsRef|..]
    else ref
  }

  /**
   * The tag a line of `git show-ref --tags -d` names: nothing for a line
   * with fewer than two fields or, when a hash is asked for, with another
   * hash in front.
   */
  function TagOf(line: string, hash: Option<string>): Option<string> {
    var fields := FirstTwo(line);
    if |fields| != 2 || (hash.Some? && hash.value != fields[0]) then None
    else Some(TagName(fields[1]))
  }

  /** The tags the lines name, in order. */
  function TagsOf(lines: seq<string>, hash: Option<string>): seq<string> {
    if lines == [] then []
    else
      var found := TagOf(lines[|lines| - 1], hash);
      TagsOf(lines[..|lines| - 1], hash) + (if found.Some? then [found.value] else [])
  }

  /** `Tags`: the tags the lines of the output name, line by line. */
  method Tags(stdout: string, hash: Option<string>) returns (tags: seq<string>)
    ensures tags == TagsOf(Split(stdout, '\n'), hash)
  {
    tags := [];
    var lines := Split(stdout, '\n');
    for i := 0 to |lines|
      invariant tags == TagsOf(lines[..i], hash)
    {
      assert lines[..i + 1][..i] == lines[..i];
      var fields := FirstTwo(lines[i]);
      if |fields| != 2 || (hash.Some? && hash.value != fields[0]) {
        continue;
      }
      tags := tags + [TagName(fields[1])];
    }
    assert lines[..|lines|] == lines;
  }

  /** Line `i` names tag `t`. */
  predicate NamesTag(lines: seq<string>, i: int, hash: Option<string>, t: string) {
    0 <= i < |lines| && TagOf(lines[i], hash) == Some(t)
  }

  /** The tags `Tags` reports are exactly the tags the lines name. */
  lemma {:induction false} TagsMembers(lines: seq<string>, hash: Option<string>)
    ensures forall t :: t in TagsOf(lines, hash) <==> exists i :: NamesTag(lines, i, hash, t)
  {
    if lines != [] {
      var init, last := lines[..|lines| - 1], lines[|lines| - 1];
      assert lines == init + [last];
      TagsMembers(init, hash);
      forall t ensures t in TagsOf(lines, hash) <==> exists i :: NamesTag(lines, i, hash, t) {
        TagsMemberStep(init, last, hash, t);
      }
    }
  }

  /** One more line adds to the tags exactly the tag it names. */
  lemma TagsMemberStep(init: seq<string>, last: string, hash: Option<string>, t: string)
    requires forall t :: t in TagsOf(init, hash) <==> exists i :: NamesTag(init, i, hash, t)
    ensures t in TagsOf(init + [last], hash) <==> exists i :: NamesTag(init + [last], i, hash, t)
  {
    var lines := init + [last];
    assert lines[..|lines| - 1] == init;
    var found := TagOf(last, hash);
    assert TagsOf(lines, hash) == TagsOf(init, hash) + (if found.Some? then [found.value] else []);
    if t in TagsOf(lines, hash) {
      if t in TagsOf(init, hash) {
        var i :| NamesTag(init, i, hash, t);
        assert lines[i] == init[i];
        assert NamesTag(lines, i, hash, t);
      } else {
        assert NamesTag(lines, |lines| - 1, hash, t);
      }
    }
    if exists i :: NamesTag(lines, i, hash, t) {
      var i :| NamesTag(lines, i, hash, t);
      if i < |init| {
        assert lines[i] == init[i];
        assert NamesTag(init, i, hash, t);
      }
    }
  }

  /** Asking for a hash only leaves out tags: every tag found for a hash is found without one. */
  lemma TagsForHash(lines: seq<string>, h: string)
    ensures forall t :: t in TagsOf(lines, Some(h)) ==> t in TagsOf(lines, None)
  {
    TagsMembers(lines, Some(h));
    TagsMembers(lines, None);
    forall t | t in TagsOf(lines, Some(h)) ensures t in TagsOf(lines, None) {
      var i :| NamesTag(lines, i, Some(h), t);
      assert NamesTag(lines, i, None, t);
    }
  }

  /**
   * A line of `git show-ref` for the tag `name` at hash `h` names that tag
   * when no hash or `h` is asked for, and nothing when another hash is.
   */
  lemma ShowRefLine(h: string, name: string, other: string)
    requires ' ' !in h && ' ' !in name && other != h
    ensures TagOf(h + " " + TagsRef + name, None) == Some(name)
    ensures TagOf(h + " " + TagsRef + name, Some(h)) == Some(name)
    ensures TagOf(h + " " + TagsRef + name, Some(other)) == None
  {
    var ref := TagsRef + name;
    assert ' ' !in ref;
    assert h + " " + TagsRef + name == h + [' '] + ref;
    SplitAt(h, ref, ' ');
    SplitNone(ref, ' ');
    assert ref[..|TagsRef|] == TagsRef;
    assert ref[|TagsRef|..] == name;
  }

  // ----- LocalBranches -----

  /**
   * The entry a line of `git branch` adds: none for a line without words;
   * for the current branch, marked `*`, the word after the mark, absent
   * when there is none; otherwise the first word.
   */
  function BranchOf(line: string): seq<Option<string>> {
    var words := SpaceWords(line);
    if |words| < 1 then []
    else if words[0] == "*" then [if |words| > 1 then Some(words[1]) else None]
    else [Some(words[0])]
  }

  /** The entries of the lines, in order. */
  function BranchesOf(lines: seq<string>): seq<Option<string>> {
    if lines == [] then [] else BranchesOf(lines[..|lines| - 1]) + BranchOf(lines[|lines| - 1])
  }

  /** `LocalBranches`: nothing when verbose; otherwise the entries of the lines of `git branch`, line by line. */
  method LocalBranches(stdout: string, verbose: bool) returns (branches: seq<Option<string>>)
    ensures verbose ==> branches == []
    ensures !verbose ==> branches == BranchesOf(Split(stdout, '\n'))
  {
    branches := [];
    if verbose {
      return;
    }
    var lines := Split(stdout, '\n');
    for i := 0 to |lines|
      invariant branches == BranchesOf(lines[..i])
    {
      assert lines[..i + 1][..i] == lines[..i];
      var words := SpaceWords(lines[i]);
      if |words| < 1 {
        continue;
      }
      if words[0] == "*" {
        branches := branches + [if |words| > 1 then Some(words[1]) else None];
      } else {
        branches := branches + [Some(words[0])];
      }
    }
    assert lines[..|lines|] == lines;
  }

  /**
   * What `LocalBranches` reports: at most one entry per line, every name
   * a non-empty word without spaces, and an absent entry exactly for a
   * line that is the current-branch mark alone.
   */
  lemma {:induction false} BranchesNamed(lines: seq<string>)
    ensures |BranchesOf(lines)| <= |lines|
    ensures forall b :: Some(b) in BranchesOf(lines) ==> b != "" && ' ' !in b
    ensures None in BranchesOf(lines) <==> exists i :: 0 <= i < |lines| && SpaceWords(lines[i]) == ["*"]
  {
    if lines != [] {
      var init := lines[..|lines| - 1];
      var last := lines[|lines| - 1];
      BranchesNamed(init);
      var words := SpaceWords(last);
      if |words| == 1 && words[0] == "*" {
        assert words == ["*"];
      }
      if None in BranchesOf(init) {
        var i :| 0 <= i < |init| && SpaceWords(init[i]) == ["*"];
        assert lines[i] == init[i];
      }
      if exists i :: 0 <= i < |lines| && SpaceWords(lines[i]) == ["*"] {
        var i :| 0 <= i < |lines| && SpaceWords(lines[i]) == ["*"];
        if i < |init| {
          assert lines[i] == init[i];
        }
      }
    }
  }

  /** The line of the current branch names it; the line of another branch, indented, names that one. */
  lemma BranchLines(name: string)
    requires name != "" && ' ' !in name && name != "*"
    ensures BranchOf("* " + name) == [Some(name)]
    ensures BranchOf("  " + name) == [Some(name)]
  {
    SpaceWordsJoin(["*", name]);
    assert Join(["*", name], ' ') == "* " + name;
    SpaceWordsJoin([name]);
    Indented(name);
    Indented(" " + name);
    assert "  " + name == " " + (" " + name);
  }

  // ----- RemoteBranches -----

  /** A branch of a remote: its reference in `git branch --all` and its name. */
  datatype RemoteBranch = RemoteBranch(remote: string, branch: string)

  /** What a line of `git branch --all` does: nothing, an entry, or the exception of a missing word. */
  datatype Parsed = Skipped | Found(entry: RemoteBranch) | Throws

  /** Where `git branch --all` lists the branches of a remote. */
  function RemotePrefix(name: string): string {
    "remotes/" + name + "/"
  }

  /**
   * The entry a line adds for the remote `name`: for the remote's `HEAD`
   * line, the branch it points to, read from the third word, and the
   * exception when there is no third word; for another branch of the
   * remote, that branch; nothing otherwise. Every entry's reference is the
   * remote's prefix followed by the branch.
   */
  function RemoteOf(line: string, name: string): (r: Parsed)
    ensures r.Found? ==> r.entry.remote == RemotePrefix(name) + r.entry.branch
  {
    var words := SpaceWords(line);
    var prefix := RemotePrefix(name);
    if |words| < 1 then Skipped
    else if words[0] == prefix + "HEAD" then
      if |words| < 3 then Throws
      else
        var branch := ReplaceFirst(words[2], name + "/", "");
        Found(RemoteBranch(prefix + branch, branch))
    else if IndexOf(words[0], prefix) == 0 then
      AtStart(words[0], prefix);
      ReplacePrefix(words[0], prefix);
      assert words[0] == prefix + words[0][|prefix|..];
      Found(RemoteBranch(words[0], ReplaceFirst(words[0], prefix, "")))
    else Skipped
  }

  /** The entries of the lines, in order, or nothing when a line throws. */
  function RemotesOf(lines: seq<string>, name: string): (r: Option<seq<RemoteBranch>>)
    ensures r.Some? ==> forall e :: e in r.value ==> e.remote == RemotePrefix(name) + e.branch
  {
    if lines == [] then Some([])
    else
      var before := RemotesOf(lines[..|lines| - 1], name);
      match RemoteOf(lines[|lines| - 1], name)
      case Throws => None
      case Skipped => before
      case Found(e) => if before.Some? then Some(before.value + [e]) else None
  }

  /** Once a line throws, the whole output does. */
  lemma {:induction false} ThrowsPersist(lines: seq<string>, k: nat, name: string)
    requires k <= |lines| && RemotesOf(lines[..k], name).None?
    ensures RemotesOf(lines, name).None?
    decreases |lines| - k
  {
    if k < |lines| {
      assert lines[..k + 1][..k] == lines[..k];
      ThrowsPersist(lines, k + 1, name);
    } else {
      assert lines[..k] == lines;
    }
  }

  /**
   * `RemoteBranches`: nothing when verbose; otherwise the entries of the
   * lines of `git branch --all`, line by line, or nothing at all when a
   * line throws.
   */
  method RemoteBranches(stdout: string, name: string, verbose: bool) returns (r: Option<seq<RemoteBranch>>)
    ensures verbose ==> r == Some([])
    ensures !verbose ==> r == RemotesOf(Split(stdout, '\n'), name)
  {
    var remotes := [];
    if verbose {
      return Some(remotes);
    }
    var lines := Split(stdout, '\n');
    for i := 0 to |lines|
      invariant RemotesOf(lines[..i], name) == Some(remotes)
    {
      assert lines[..i + 1][..i] == lines[..i];
      var parsed := RemoteLine(lines[i], name);
      match parsed
      case Throws =>
        ThrowsPersist(lines, i + 1, name);
        return None;
      case Found(e) =>
        remotes := remotes + [e];
      case Skipped =>
    }
    assert lines[..|lines|] == lines;
    r := Some(remotes);
  }

  /** The handling of one line by `RemoteBranches`. */
  method RemoteLine(line: string, name: string) returns (r: Parsed)
    ensures r == RemoteOf(line, name)
  {
    var words := SpaceWords(line);
    if |words| < 1 {
      return Skipped;
    }
    var prefix := RemotePrefix(name);
    if words[0] == prefix + "HEAD" {
      if |words| < 3 {
        // the third word is undefined, and taking its branch throws
        return Throws;
      }
      var branch := ReplaceFirst(words[2], name + "/", "");
      r := Found(RemoteBranch(prefix + branch, branch));
    } else if IndexOf(words[0], prefix) == 0 {
      var branch := ReplaceFirst(words[0], prefix, "");
      r := Found(RemoteBranch(words[0], branch));
    } else {
      r := Skipped;
    }
  }

  /** The words of the `HEAD` line of a remote. */
  lemma HeadLineWords(name: string, branch: string)
    requires ' ' !in name && ' ' !in branch
    ensures SpaceWords("  " + RemotePrefix(name) + "HEAD -> " + name + "/" + branch)
      == [RemotePrefix(name) + "HEAD", "->", name + "/" + branch]
  {
    var head := RemotePrefix(name) + "HEAD";
    var target := name + "/" + branch;
    var ws := [head, "->", target];
    assert ws[1..] == ["->", target] && ws[1..][1..] == [target];
    assert Join(ws[1..][1..], ' ') == target;
    assert Join(ws[1..], ' ') == "->" + [' '] + target;
    assert Join(ws, ' ') == head + [' '] + ("->" + [' '] + target);
    SpaceWordsJoin(ws);
    var line := Join(ws, ' ');
    Indented(line);
    Indented(" " + line);
    HeadLineShape(name, branch, line);
  }

  /** The `HEAD` line is its three words behind two spaces. */
  lemma HeadLineShape(name: string, branch: string, line: string)
    requires line == RemotePrefix(name) + "HEAD" + [' '] + ("->" + [' '] + (name + "/" + branch))
    ensures "  " + RemotePrefix(name) + "HEAD -> " + name + "/" + branch == " " + (" " + line)
  {
  }

  /** The `HEAD` line of a remote names the branch it points to. */
  lemma RemoteHeadLine(name: string, branch: string)
    requires ' ' !in name && ' ' !in branch
    ensures RemoteOf("  " + RemotePrefix(name) + "HEAD -> " + name + "/" + branch, name)
      == Found(RemoteBranch(RemotePrefix(name) + branch, branch))
  {
    HeadLineWords(name, branch);
    var target := name + "/" + branch;
    assert target[..|name + "/"|] == name + "/";
    AtStart(target, name + "/");
    ReplacePrefix(target, name + "/");
    assert target[|name + "/"|..] == branch;
  }

  /** The line of another branch of a remote names that branch. */
  lemma RemoteBranchLine(name: string, branch: string)
    requires ' ' !in name && branch != "" && ' ' !in branch && branch != "HEAD"
    ensures RemoteOf("  " + RemotePrefix(name) + branch, name) == Found(RemoteBranch(RemotePrefix(name) + branch, branch))
  {
    var prefix := RemotePrefix(name);
    var word := prefix + branch;
    SpaceWordsJoin([word]);
    Indented(word);
    Indented(" " + word);
    assert "  " + prefix + branch == " " + (" " + word);
    assert word[..|prefix|] == prefix;
    AtStart(word, prefix);
    ReplacePrefix(word, prefix);
    assert word[|prefix|..] == branch;
    assert word != prefix + "HEAD";
  }

  /** Line `i` throws. */
  predicate ThrowsAt(lines: seq<string>, i: int, name: string) {
    0 <= i < |lines| && RemoteOf(lines[i], name).Throws?
  }

  /** `RemoteBranches` throws exactly when some line throws. */
  lemma {:induction false} RemotesThrow(lines: seq<string>, name: string)
    ensures RemotesOf(lines, name).None? <==> exists i :: ThrowsAt(lines, i, name)
  {
    if lines != [] {
      var init, last := lines[..|lines| - 1], lines[|lines| - 1];
      RemotesThrow(init, name);
      assert RemotesOf(lines, name).None? <==> RemotesOf(init, name).None? || RemoteOf(last, name).Throws?;
      if exists i :: ThrowsAt(init, i, name) {
        var i :| ThrowsAt(init, i, name);
        assert lines[i] == init[i];
        assert ThrowsAt(lines, i, name);
      }
      if RemoteOf(last, name).Throws? {
        assert ThrowsAt(lines, |lines| - 1, name);
      }
      if exists i :: ThrowsAt(lines, i, name) {
        var i :| ThrowsAt(lines, i, name);
        if i < |init| {
          assert lines[i] == init[i];
          assert ThrowsAt(init, i, name);
        }
      }
    }
  }

  // ----- FindLatestTag -----

  /** The position of the last line the pattern matches, if any. */
  function LastMatch(lines: seq<string>, matches: string -> bool): (r: Option<nat>)
    ensures r.Some? ==> r.value < |lines| && matches(lines[r.value])
    ensures r.Some? ==> forall j :: r.value < j < |lines| ==> !matches(lines[j])
    ensures r.None? ==> forall j :: 0 <= j < |lines| ==> !matches(lines[j])
  {
    if lines == [] then None
    else if matches(lines[|lines| - 1]) then Some(|lines| - 1)
    else LastMatch(lines[..|lines| - 1], matches)
  }

  /**
   * What `FindLatestTag` returns, as written: the last line the pattern
   * matches, when that line is not empty; otherwise the error.
   */
  function LatestTag(lines: seq<string>, matches: string -> bool): Result<string, string> {
    match LastMatch(lines, matches)
    case Some(i) => if lines[i] != "" then Ok(lines[i]) else Err("Tag not found")
    case None => Err("Tag not found")
  }

  /**
   * `FindLatestTag`: keeps the last line of `git tag --sort=committerdate`
   * the pattern matches, and returns it when it is not empty.
   */
  method FindLatestTag(stdout: string, matches: string -> bool) returns (r: Result<string, string>)
    ensures r == LatestTag(Split(stdout, '\n'), matches)
  {
    var tag: Option<string> := None;
    var lines := Split(stdout, '\n');
    for i := 0 to |lines|
      invariant tag == (match LastMatch(lines[..i], matches) case Some(j) => Some(lines[j]) case None => None)
    {
      assert lines[..i + 1][..i] == lines[..i];
      if matches(lines[i]) {
        tag := Some(lines[i]);
      }
    }
    assert lines[..|lines|] == lines;
    if tag.Some? && tag.value != "" {
      return Ok(tag.value);
    }
    return Err("Tag not found");
  }

  /** A pattern that matches every line, as `.*` does. */
  predicate AnyLine(line: string) {
    true
  }

  /**
   * Output that ends with a newline, as git's does, has an empty last
   * line; a pattern that matches the empty line picks that one, so the
   * tag on the line before it is not found.
   */
  lemma TrailingLineHidesTag()
    ensures Split("v1\n", '\n') == ["v1", ""]
    ensures AnyLine("v1")
    ensures LatestTag(Split("v1\n", '\n'), AnyLine) == Err("Tag not found")
  {
    SplitAt("v1", "", '\n');
    assert "v1" + ['\n'] + "" == "v1\n";
  }

  /**
   * What `FindLatestTag` evidently means to return: the last non-empty
   * line the pattern matches, and the error exactly when there is none.
   */
  function LatestTagCorrected(lines: seq<string>, matches: string -> bool): (r: Result<string, string>)
    ensures r.Ok? <==> exists i :: 0 <= i < |lines| && lines[i] != "" && matches(lines[i])
    ensures r.Ok? ==> r.value != "" && matches(r.value)
    ensures r.Ok? ==> exists i :: (0 <= i < |lines| && lines[i] == r.value
      && forall j :: i < j < |lines| ==> lines[j] == "" || !matches(lines[j]))
    ensures r.Err? ==> r.error == "Tag not found"
  {
    if lines == [] then Err("Tag not found")
    else
      var last := lines[|lines| - 1];
      if last != "" && matches(last) then Ok(last)
      else
        var r := LatestTagCorrected(lines[..|lines| - 1], matches);
        assert forall i :: 0 <= i < |lines| - 1 ==> lines[..|lines| - 1][i] == lines[i];
        r
  }

  /** `FindLatestTag` with empty lines skipped. */
  method FindLatestTagCorrected(stdout: string, matches: string -> bool) returns (r: Result<string, string>)
    ensures r == LatestTagCorrected(Split(stdout, '\n'), matches)
  {
    var tag: Option<string> := None;
    var lines := Split(stdout, '\n');
    for i := 0 to |lines|
      invariant tag.None? <==> LatestTagCorrected(lines[..i], matches).Err?
      invariant tag.Some? ==> LatestTagCorrected(lines[..i], matches) == Ok(tag.value)
    {
      assert lines[..i + 1][..i] == lines[..i];
      if lines[i] != "" && matches(lines[i]) {
        tag := Some(lines[i]);
      }
    }
    assert lines[..|lines|] == lines;
    if tag.Some? {
      return Ok(tag.value);
    }
    return Err("Tag not found");
  }

  /** With empty lines skipped, the tag before git's trailing newline is found. */
  lemma CorrectedFindsTag()
    ensures LatestTagCorrected(Split("v1\n", '\n'), AnyLine) == Ok("v1")
  {
    SplitAt("v1", "", '\n');
    assert "v1" + ['\n'] + "" == "v1\n";
    assert ["v1", ""][..1] == ["v1"];
  }

  /** Skipping empty lines changes nothing when the source finds a tag. */
  lemma {:induction false} CorrectedAgrees(lines: seq<string>, matches: string -> bool)
    requires LatestTag(lines, matches).Ok?
    ensures LatestTagCorrected(lines, matches) == LatestTag(lines, matches)
  {
    var i := LastMatch(lines, matches).value;
    if i < |lines| - 1 {
      var init := lines[..|lines| - 1];
      assert LastMatch(init, matches) == LastMatch(lines, matches);
      assert init[i] == lines[i];
      CorrectedAgrees(init, matches);
    }
  }
}
