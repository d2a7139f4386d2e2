/**
 * The driver of script.py: `process_config`, which chains copy, substitution and build, and the
 * loop over the labelled issues that picks the config to process.
 */
module Pipeline {
  import opened Common
  import opened Strings
  import opened Paths
  import opened FileStore
  import opened Materialize
  import opened Config
  import opened Substitute
  import opened Build

  const UsernameKey: string := "App Username"

  // ----- `process_config` -----

  /** What a run of `process_config` leaves: files, directories, how it ended, the commands issued. */
  datatype Processed = Processed(files: map<string, string>, dirs: set<string>, outcome: Outcome, issued: seq<string>)

  /**
   * `process_config(config)`: a missing `App Username` raises `KeyError` before anything is copied;
   * the copy always reports success; the build runs only after the substitution returned True.
   */
  function Process(files: map<string, string>, dirs: set<string>, tree: Tree, config: map<string, string>,
                   glob: string -> seq<string>, isBinary: (string, string) -> bool, status: string -> int, depth: nat): Processed
  {
    if UsernameKey !in config then Processed(files, dirs, Raised(KeyError(UsernameKey)), [])
    else
      var user := config[UsernameKey];
      var copied := StoreFiles(files, Walk(tree), DstDir(user));
      var made := dirs + MadeDirs(Walk(tree), DstDir(user));
      var replaced := ReplacePatterns(copied, made, glob, isBinary, user, config, Patterns, depth);
      if replaced.outcome != Returned(true) then Processed(replaced.files, made, replaced.outcome, [])
      else
        var built := RunCommands(Commands(user), status);
        Processed(replaced.files, made, Returned(built.ok), built.issued)
  }

  method ProcessConfig(fs: Store, tree: Tree, config: map<string, string>, glob: string -> seq<string>,
                       isBinary: (string, string) -> bool, status: string -> int, depth: nat)
    returns (outcome: Outcome, issued: seq<string>)
    requires WellFormed(tree)
    requires PlainValues(config)
    modifies fs
    ensures Processed(fs.files, fs.dirs, outcome, issued)
         == Process(old(fs.files), old(fs.dirs), tree, config, glob, isBinary, status, depth)
  {
    if UsernameKey !in config {
      return Raised(KeyError(UsernameKey)), [];
    }
    var user := config[UsernameKey];
    // `copy_project` returns True whenever it returns, so its failure branch is never taken.
    var copied := CopyProject(fs, tree, user);
    var replaced := ReplaceProject(fs, glob, isBinary, user, config, depth);
    if replaced != Returned(true) {
      return replaced, [];
    }
    var ok;
    ok, issued := BuildProject(user, status);
    outcome := Returned(ok);
  }

  /**
   * The short circuit: without `App Username` the lookup raises `KeyError` and nothing is touched; a command is issued only after
   * the substitution returned True; and the run succeeds exactly when the user name is there,
   * every pattern got its value, and all five commands exit 0.
   */
  lemma ProcessShortCircuit(files: map<string, string>, dirs: set<string>, tree: Tree, config: map<string, string>,
                            glob: string -> seq<string>, isBinary: (string, string) -> bool, status: string -> int, depth: nat)
    ensures var r := Process(files, dirs, tree, config, glob, isBinary, status, depth);
      (UsernameKey !in config ==>
         r.outcome == Raised(KeyError(UsernameKey)) && r.files == files && r.dirs == dirs && r.issued == [])
      && (r.issued != [] ==>
            (UsernameKey in config
             && var user := config[UsernameKey];
                ReplacePatterns(StoreFiles(files, Walk(tree), DstDir(user)), dirs + MadeDirs(Walk(tree), DstDir(user)),
                                glob, isBinary, user, config, Patterns, depth).outcome == Returned(true)))
      && (r.outcome == Returned(true) <==>
            UsernameKey in config
            && (var user := config[UsernameKey];
                ReplacePatterns(StoreFiles(files, Walk(tree), DstDir(user)), dirs + MadeDirs(Walk(tree), DstDir(user)),
                                glob, isBinary, user, config, Patterns, depth).outcome == Returned(true)
                && forall k :: 0 <= k < 5 ==> status(Commands(user)[k]) == 0))
  {
    if UsernameKey in config {
      FailFast(Commands(config[UsernameKey]), status);
    }
  }

  /**
   * A user name with a backslash splits the run: the copy writes below `.instances/<user>/` with
   * the backslash kept, while the substitution normalises it into a separator and globs elsewhere.
   */
  lemma BackslashUserDiverges(user: string, file: string)
    requires '\\' in user
    ensures TargetPath(user, file) != DstDir(user) + file
  {
    var j := Join(InstancesDir, user);
    assert '\\' in j by {
      var k :| 0 <= k < |user| && user[k] == '\\';
      if user != [] && user[0] == Sep {
        assert j == user;
      } else {
        assert j == InstancesDir + [Sep] + user;
        assert j[|InstancesDir| + 1 + k] == '\\';
      }
    }
    var k :| 0 <= k < |j| && j[k] == '\\';
    assert (DstDir(user) + file)[k] == '\\';
  }

  /**
   * `process_config` creates exactly the copies of the walked files and deletes nothing; each copy
   * holds the content of a walked file, and keeps it when the binary check flags it or when no
   * pattern could be resolved.
   */
  lemma ProcessWrites(files: map<string, string>, dirs: set<string>, tree: Tree, config: map<string, string>,
                      glob: string -> seq<string>, isBinary: (string, string) -> bool, status: string -> int, depth: nat)
    requires UsernameKey in config
    ensures Process(files, dirs, tree, config, glob, isBinary, status, depth).files.Keys
         == files.Keys + CopyTargets(Walk(tree), DstDir(config[UsernameKey]))
    ensures var dst := DstDir(config[UsernameKey]);
      var r := Process(files, dirs, tree, config, glob, isBinary, status, depth);
      forall p :: p in CopyTargets(Walk(tree), dst) ==>
        p in r.files && (exists d :: CopiedFrom(Walk(tree), dst, p, d)
                                    && (isBinary(p, d) ==> r.files[p] == d)
                                    && ("Full Name" !in config && DefaultKey !in config ==> r.files[p] == d))
  {
    var user := config[UsernameKey];
    var dst := DstDir(user);
    ProcessFiles(files, dirs, tree, config, glob, isBinary, status, depth);
    SubstitutedCopies(files, dirs + MadeDirs(Walk(tree), dst), Walk(tree), dst, glob, isBinary, user, config, depth);
  }

  /** With a user name, the files `process_config` leaves are those the substitution leaves of the copy. */
  lemma ProcessFiles(files: map<string, string>, dirs: set<string>, tree: Tree, config: map<string, string>,
                     glob: string -> seq<string>, isBinary: (string, string) -> bool, status: string -> int, depth: nat)
    requires UsernameKey in config
    ensures var dst := DstDir(config[UsernameKey]);
      Process(files, dirs, tree, config, glob, isBinary, status, depth).files
      == ReplacePatterns(StoreFiles(files, Walk(tree), dst), dirs + MadeDirs(Walk(tree), dst), glob, isBinary,
                         config[UsernameKey], config, Patterns, depth).files
  {
    var user := config[UsernameKey];
    var made := dirs + MadeDirs(Walk(tree), DstDir(user));
    var replaced := ReplacePatterns(StoreFiles(files, Walk(tree), DstDir(user)), made, glob, isBinary, user, config, Patterns, depth);
    var r := Process(files, dirs, tree, config, glob, isBinary, status, depth);
    if replaced.outcome != Returned(true) {
      assert r == Processed(replaced.files, made, replaced.outcome, []);
    } else {
      var built := RunCommands(Commands(user), status);
      assert r == Processed(replaced.files, made, Returned(built.ok), built.issued);
    }
  }

  /** The copy followed by the substitution: the keys `ProcessWrites` states, and what each copy holds. */
  lemma SubstitutedCopies(files: map<string, string>, made: set<string>, vs: seq<Visit>, dst: string,
                          glob: string -> seq<string>, isBinary: (string, string) -> bool, user: string,
                          config: map<string, string>, depth: nat)
    ensures ReplacePatterns(StoreFiles(files, vs, dst), made, glob, isBinary, user, config, Patterns, depth).files.Keys
         == files.Keys + CopyTargets(vs, dst)
    ensures var after := ReplacePatterns(StoreFiles(files, vs, dst), made, glob, isBinary, user, config, Patterns, depth).files;
      forall p :: p in CopyTargets(vs, dst) ==>
        p in after && (exists d :: CopiedFrom(vs, dst, p, d)
                                   && (isBinary(p, d) ==> after[p] == d)
                                   && ("Full Name" !in config && DefaultKey !in config ==> after[p] == d))
  {
    var copied := StoreFiles(files, vs, dst);
    var after := ReplacePatterns(copied, made, glob, isBinary, user, config, Patterns, depth).files;
    StoreFilesKeys(files, vs, dst);
    ReplacePatternsPreserves(copied, made, glob, isBinary, user, config, Patterns, depth);
    if "Full Name" !in config && DefaultKey !in config {
      NothingWithoutFullName(copied, made, glob, isBinary, user, config, depth);
    }
    forall p | p in CopyTargets(vs, dst) ensures p in copied && CopiedFrom(vs, dst, p, copied[p]) {
      StoreFilesTarget(files, vs, dst, p);
    }
    CopiesKept(copied, after, vs, dst, isBinary, "Full Name" !in config && DefaultKey !in config);
  }

  /** What the substitution keeps of the copies: the binary ones always, all of them when it touched nothing. */
  lemma CopiesKept(copied: map<string, string>, after: map<string, string>, vs: seq<Visit>, dst: string,
                   isBinary: (string, string) -> bool, untouched: bool)
    requires forall p :: p in CopyTargets(vs, dst) ==> p in copied && CopiedFrom(vs, dst, p, copied[p])
    requires after.Keys == copied.Keys && BinaryKept(copied, after, isBinary)
    requires untouched ==> after == copied
    ensures forall p :: p in CopyTargets(vs, dst) ==>
      p in after && (exists d :: CopiedFrom(vs, dst, p, d)
                                 && (isBinary(p, d) ==> after[p] == d)
                                 && (untouched ==> after[p] == d))
  {
    forall p | p in CopyTargets(vs, dst)
      ensures p in after && (exists d :: CopiedFrom(vs, dst, p, d)
                                         && (isBinary(p, d) ==> after[p] == d)
                                         && (untouched ==> after[p] == d))
    {
      var d := copied[p];
      assert CopiedFrom(vs, dst, p, d) && (isBinary(p, d) ==> after[p] == d) && (untouched ==> after[p] == d);
    }
  }

  // ----- choosing the issue -----

  /** An open issue with the label: its body, and the bodies of its comments from oldest to newest. */
  datatype Issue = Issue(body: string, comments: seq<string>)

  /** The index of the newest comment holding a config block. */
  function NewestWithConfig(comments: seq<string>): (r: Option<nat>)
    decreases |comments|
    ensures r.Some? ==> r.value < |comments| && HasConfig(comments[r.value])
    ensures r.Some? ==> forall j :: r.value < j < |comments| ==> !HasConfig(comments[j])
    ensures r.None? ==> forall j :: 0 <= j < |comments| ==> !HasConfig(comments[j])
  {
    if comments == [] then None
    else if HasConfig(comments[|comments| - 1]) then Some(|comments| - 1)
    else
      var init := comments[..|comments| - 1];
      assert forall j :: 0 <= j < |init| ==> init[j] == comments[j];
      NewestWithConfig(init)
  }

  /** `target_body`: the newest comment with a block, else the body if it has one. */
  function TargetBody(issue: Issue): (r: Option<string>)
    ensures r.Some? ==> HasConfig(r.value)
    ensures r.Some? ==> r.value == issue.body || r.value in issue.comments
    ensures r.None? <==> (forall j :: 0 <= j < |issue.comments| ==> !HasConfig(issue.comments[j])) && !HasConfig(issue.body)
  {
    match NewestWithConfig(issue.comments)
    case Some(i) => Some(issue.comments[i])
    case None => if HasConfig(issue.body) then Some(issue.body) else None
  }

  /** A comment with a block, with none newer than it, is chosen even when the body has one too. */
  lemma NewestCommentWins(issue: Issue, i: nat)
    requires i < |issue.comments| && HasConfig(issue.comments[i])
    requires forall j :: i < j < |issue.comments| ==> !HasConfig(issue.comments[j])
    ensures TargetBody(issue) == Some(issue.comments[i])
  {
  }

  /** Without a block in any comment, the body is the candidate when it has a block itself. */
  lemma BodyFallback(issue: Issue)
    requires forall j :: 0 <= j < |issue.comments| ==> !HasConfig(issue.comments[j])
    ensures TargetBody(issue) == (if HasConfig(issue.body) then Some(issue.body) else None)
  {
  }

  /** The reverse index loop over the comments, left at the newest match, then the fallback to the body. */
  method FindTarget(issue: Issue) returns (target: Option<string>)
    ensures target == TargetBody(issue)
  {
    target := None;
    var comments := issue.comments;
    var i := |comments| - 1;
    while i >= 0
      invariant -1 <= i < |comments|
      invariant forall j :: i < j < |comments| ==> !HasConfig(comments[j])
    {
      if HasConfig(comments[i]) {
        target := Some(comments[i]);
        NewestCommentWins(issue, i);
        return;
      }
      i := i - 1;
    }
    BodyFallback(issue);
    if HasConfig(issue.body) {
      target := Some(issue.body);
    }
  }

  /** The issue is processed: it has a block, and the block parses to at least one key. */
  predicate Chosen(issue: Issue) {
    TargetBody(issue).Some? && ParseConfig(TargetBody(issue).value) != Some(map[])
  }

  /** The first issue from `from` on that is processed; the loop stops there. */
  function SelectIssue(issues: seq<Issue>, from: nat): (r: Option<nat>)
    decreases |issues| - from
    ensures r.Some? ==> from <= r.value < |issues| && Chosen(issues[r.value])
    ensures forall j :: from <= j < |issues| && (r.None? || j < r.value) ==> !Chosen(issues[j])
  {
    if from >= |issues| then None
    else if Chosen(issues[from]) then Some(from)
    else SelectIssue(issues, from + 1)
  }

  /** The config of a chosen issue, as `get_config` returns it. */
  function ChosenConfig(issue: Issue): (r: map<string, string>)
    requires Chosen(issue)
    ensures r != map[]
    ensures forall k :: k in r ==> ValidKey(k) && Trimmed(r[k])
  {
    ParseConfig(TargetBody(issue).value).value
  }

  /** One turn of the issue loop before `process_config`: the candidate text, then its config unless it is `{}`. */
  method IssueConfig(issue: Issue) returns (config: Option<map<string, string>>)
    ensures config.Some? <==> Chosen(issue)
    ensures config.Some? ==> config.value == ChosenConfig(issue)
  {
    config := None;
    var target := FindTarget(issue);
    if target.Some? {
      var parsed := GetConfig(target.value);
      if parsed.value != map[] {
        config := Some(parsed.value);
      }
    }
  }

  /**
   * The loop at the end of script.py: for each issue in order find its candidate text; an issue
   * without one, or whose config is `{}`, is passed over; the first non-empty config is processed
   * once, and the loop stops whatever `process_config` returned.
   */
  method RunIssues(fs: Store, tree: Tree, issues: seq<Issue>, glob: string -> seq<string>,
                   isBinary: (string, string) -> bool, status: string -> int, depth: nat)
    returns (processed: Option<nat>, outcome: Option<Outcome>, issued: seq<string>)
    requires WellFormed(tree)
    requires SelectIssue(issues, 0).Some? ==> PlainValues(ChosenConfig(issues[SelectIssue(issues, 0).value]))
    modifies fs
    ensures processed == SelectIssue(issues, 0)
    ensures processed.None? ==> outcome.None? && fs.files == old(fs.files) && fs.dirs == old(fs.dirs)
    ensures processed.Some? ==> outcome.Some?
    ensures processed.Some? && outcome.Some? ==>
      Processed(fs.files, fs.dirs, outcome.value, issued)
      == Process(old(fs.files), old(fs.dirs), tree, ChosenConfig(issues[processed.value]), glob, isBinary, status, depth)
  {
    processed, outcome, issued := None, None, [];
    var i := 0;
    while i < |issues|
      invariant 0 <= i <= |issues|
      invariant SelectIssue(issues, i) == SelectIssue(issues, 0)
      invariant fs.files == old(fs.files) && fs.dirs == old(fs.dirs)
    {
      var config := IssueConfig(issues[i]);
      if config.Some? {
        assert SelectIssue(issues, i) == Some(i);
        var result;
        result, issued := ProcessConfig(fs, tree, config.value, glob, isBinary, status, depth);
        processed, outcome := Some(i), Some(result);
        return;
      }
      i := i + 1;
    }
  }
}
