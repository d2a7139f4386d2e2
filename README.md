# A verified model of the sub-brand build script

`script.py` (MyAutoBuildActions) builds white-label copies of a React Native app. It finds the
open GitHub issues with a given label. For each one it takes the newest comment, or else the
issue body, that holds a config block:

```
--- start config ---
App Username: acme
Full Name: Acme Corp
--- end config ---
```

It parses the `Key: Value` lines of that block. It copies the template project into
`.instances/<App Username>/`, skipping `.git`, `.github`, `.instances` and those dot-directories
its pruning loop examines: the entry just after a removed dot-directory is never looked at and is
copied. It rewrites `"name": "…",` and `"displayName": "…",` in the copied files. It then runs a fixed
sequence of shell commands to build the Android app. The first issue with a non-empty config is
processed, and then the script stops.

The model covers the parts whose behaviour can be stated exactly once the GitHub client, the shell
and real I/O are abstracted away. It follows the code, including where the code departs from what
its comments say.

- `Config` (`config.dfy`) is `has_config`/`get_config` as a pure parser. It covers the greedy
  DOTALL sentinel search (first start sentinel, last end sentinel after it) and `re.findall` of
  `([a-zA-Z0-9 ]+): (.*)`. It also covers `strip()` with Python's whitespace set, removal of `\r`,
  and the dictionary in which the last duplicate wins. `GetConfig` is the filling loop, proved
  equal to `ParseConfig`.
- `Materialize` (`materialize.dfy`) is `copy_project`. `os.walk` top-down is written out as its
  explicit stack (pop a directory, list it, push the pruned `dirs` in reverse) over a `Tree`
  snapshot of the working directory. `PruneDirs` is the in-place pruning. The dot loop removes
  from the list it iterates over, so the entry after each removed one is never examined
  (`Pruned([".a", ".b", "c"]) == [".b", "c"]`). The destination is `root.replace("./", dst)`,
  which replaces every occurrence. `CopyProject` updates a `FileStore.Store`: a class whose file
  map and directory set are modified in place.
- `Substitute` (`substitute.dfy`) is `replace_project` and `replace_project_dir`.
  - The three fixed patterns are applied in order. Each value comes from the key, else from
    `Default`; if neither is present, the run returns False and keeps earlier rewrites.
  - The glob results are handled in order: the target directory itself is skipped, other
    directories are handled by a recursive call, binary files are skipped, and text files are
    rewritten.
  - `re.sub(r'"K": "([^"]+)",', '"\1": "V",', …)` is a left-to-right, non-overlapping scan. As
    written, it puts the old value where the key was: `"name": "old",` becomes
    `"old": "Acme Corp",`. The comment at script.py:91 says the value replaces the group; the
    model follows the code.
- `Build` (`build.dfy`) is `build_project`: five fixed commands run fail-fast against an
  exit-status oracle.
- `Pipeline` (`pipeline.dfy`) holds the following:
  - `process_config`: a missing `App Username` raises `KeyError` before anything is copied, and
    the build runs only after the substitution returned True.
  - The issue loop: the newest comment with a block wins over the body, an issue whose config is
    `{}` is passed over, and the first non-empty config is processed once.
- `Strings`, `Paths`, `FileStore` and `Common` hold the Python string operations, POSIX
  `os.path.join`, separator normalisation, `os.makedirs`, and the `Option`/`Outcome` types.

Exceptions that escape are modelled as values (`Outcome.Raised`, `Ran.fault`):
- `KeyError` for the missing user name.
- `FileNotFound` for a glob match that is neither a directory nor a file.
- `RecursionLimit` when the recursion budget `depth` is spent.

## Model

| member | source | states |
|---|---|---|
| Strings.IndexOf | script.py:34-36 | the first index at or after `from` where the sentinel occurs, or none when it never occurs there |
| Strings.LastIndexOf | script.py:34-36 | the last index at or after `lo` where the end sentinel occurs (where a greedy `.*` stops), or none |
| Strings.ReplaceAll | script.py:61 | `str.replace` leaves a string without an occurrence unchanged |
| Strings.Strip | script.py:182 | `strip()` gives the slice of the text between a run of leading and a run of trailing whitespace, with no whitespace at either end of it; a trimmed text is kept |
| Strings.StripPadded | script.py:182 | a trimmed text with whitespace on both sides strips to exactly that text |
| Strings.StripSpaceEnd | script.py:182 | one more whitespace character at the end makes no difference to `strip()` |
| Strings.RemoveChar | script.py:182 | `replace('\r', '')` keeps every character other than `\r` as often as it occurs and drops every `\r` |
| Strings.RemoveCharAppend | script.py:182 | removal works piece by piece: removing from `a + b` is removing from `a`, then from `b`, so the order of what is kept is unchanged |
| Strings.RemoveCharEnds | script.py:182 | a first or last character other than `\r` stays first or last |
| Config.ConfigBlock | script.py:174-176 | reference definition of group 1 of the sentinel search: from just after the first start sentinel to the last end sentinel after it; `BlockBetween` and `BlockOf` state it |
| Config.HasConfig | script.py:32-36 | reference definition of `has_config` as "the sentinel search finds a block"; `HasConfigIff` states it independently |
| Config.HasConfigIff | script.py:32-36 | `has_config` holds exactly when some start sentinel is followed, at or after its end, by an end sentinel |
| Config.BlockBetween | script.py:173-176 | the captured block is the text between the first start sentinel and the last end sentinel after it |
| Config.KeyRunIs | script.py:178 | the greedy key group consumes exactly the maximal run of `[a-zA-Z0-9 ]` characters: a length is the run exactly when key characters precede it and none follows |
| Config.LineLenIs | script.py:178 | `.*` without DOTALL consumes exactly up to the first newline or the end of the text |
| Config.MatchHereShape | script.py:178 | a match of the line regex has a key of key characters and a value with no newline |
| Config.FindAll | script.py:178-179 | every entry `findall` yields has a key of `[a-zA-Z0-9 ]+` and a value with no newline |
| Config.FindAllAvoids | script.py:178-179 | a character absent from the block is absent from every captured value |
| Config.FindAllLine | script.py:178-179 | `findall` over a line `K: V` yields that entry and resumes after the newline |
| Config.FindAllDrop | script.py:178-179 | `findall` skips a prefix at none of whose positions the pattern matches |
| Config.FindAllLast | script.py:178-179 | a last line `K: V` without a newline yields exactly that entry |
| Config.FindAllMidWord | script.py:178-179 | the search is unanchored: `foo-bar: x` yields the single entry `bar` → `x` |
| Config.Clean | script.py:182 | a cleaned value is trimmed, has no `\r`, adds no character, and a clean value is kept as it is |
| Config.CleanPadded | script.py:182 | a value with blanks around it, as in `K:   V  `, cleans to the bare value |
| Config.CleanTrailingCR | script.py:182 | the `\r` a CRLF line leaves at the end of its value is removed, so `K: V\r` gives what `K: V` gives |
| Config.Collect | script.py:180-183 | the dictionary's keys are exactly the entries' keys and every value is trimmed with no `\r` |
| Config.ParseConfig | script.py:168-184 | `get_config` is None exactly when there is no block; keys are valid; values are trimmed and hold no `\r` or `\n` |
| Config.GetConfig | script.py:168-184 | the loop filling `keys` returns the parsed dictionary, and None exactly when there is no block |
| Config.LastDuplicateWins | script.py:181-183 | of entries sharing a key, the last one gives the value |
| Config.EmptyBlockIsEmptyMap | script.py:168-184 | a block with no `key: value` line gives the empty map, which is not None |
| Config.BlockOf | script.py:174-176 | a text made of the start sentinel, a middle and the end sentinel has that middle as its block |
| Config.RoundTrip | script.py:179-184 | serialising distinct valid keys with clean values as `start\nK: V\n…end` and parsing gives back the same keys and values |
| Config.FindAllCrlf | script.py:178-179 | `findall` over `\r\n`-terminated lines yields each entry with a `\r` at the end of its value |
| Config.CollectCrlf | script.py:180-183 | the dictionary built from those entries has each key's own value, the `\r` cleaned off |
| Config.RoundTripCrlf | script.py:168-184 | a config block with `\r\n` line endings parses to exactly the dictionary the same block with `\n` endings gives |
| Config.ParsedValuesAvoid | script.py:176-183 | a character absent from the issue text is absent from every parsed value |
| Paths.Join | script.py:66-67 | reference definition of `posixpath.join` for two parts: an absolute second part replaces the first, otherwise one separator is inserted unless the first already ends in one |
| Paths.Normalize | script.py:108-109 | the two `replace` calls turn every '/' and '\' into the separator and change nothing else |
| Paths.DirsOf | script.py:62 | `os.makedirs` leaves the path itself (without trailing separators) and every ancestor ending before a separator among the directories, and nothing that is not such a prefix |
| FileStore.Store.MakeDirs | script.py:62 | adds the path and its ancestors to the directories and leaves the files alone |
| FileStore.Store.Put | script.py:68 | the file at the path now holds the data; nothing else changes |
| Materialize.DropExcluded | script.py:49-54 | the listing keeps exactly the names other than `.git`, `.github` and `.instances` |
| Materialize.DropListed | script.py:49-54 | the three guarded `remove` calls leave the listing without those three names, still duplicate-free |
| Materialize.PruneDirs | script.py:49-58 | the in-place pruning gives `SkipDotted(DropExcluded(dirs))`: after each removal of a dotted name the next entry is kept unexamined |
| Materialize.PrunedDropsExcluded | script.py:49-54 | `.git`, `.github` and `.instances` never survive the pruning |
| Materialize.PrunedKeepsUndotted | script.py:49-58 | every listed name without a leading dot survives, and nothing is added |
| Materialize.PruneSkipsAfterRemoval | script.py:56-58 | in `[".a", ".b", "c"]` the entry `.b` survives |
| Materialize.CopyFiles | script.py:65-68 | the `for file in files` loop copies each file to `join(dst_root, file)` in order |
| Materialize.PushDirs | script.py:47 | `os.walk` resumes with the pruned `dirs`, walked in list order, each fully before the next |
| Materialize.Visits | script.py:47-58 | reference definition of top-down `os.walk` with the pruning applied: a directory, then its pruned subdirectories in list order; `PushDirs` and `CopyProject` are proved against it |
| Materialize.Walk | script.py:43-47 | reference definition of `os.walk("./")` over the template tree; `WalkAvoidsExcluded` and `WalkReachesUndotted` state what it visits |
| Materialize.DstRoot | script.py:61 | reference definition of `root.replace(src_dir, dst_dir)` (every occurrence); `DstRootOfTop`, `DstRootSwapsPrefix` and `DotEndingNameMisplaces` state it |
| Materialize.StoreFiles | script.py:64-68 | reference definition of the file map after the copy loops; `CopyProject` is proved equal to it; `StoreFilesKeys` and `StoreFilesTarget` state it |
| Materialize.CopyProject | script.py:39-70 | returns True; the file map and directory set become those of copying every walked directory to `root.replace("./", dst)` |
| Materialize.WalkAvoidsExcluded | script.py:47-54 | no visited directory lies under `.git`, `.github` or `.instances`, at any depth |
| Materialize.WalkReachesUndotted | script.py:47-58 | every directory reached through names without a leading dot is visited, with its files |
| Materialize.StoreFilesKeys | script.py:64-68 | the copy writes exactly the destination paths of all files of visited directories: files are never filtered, dotfiles included |
| Materialize.PutFilesTarget | script.py:65-68 | a destination of one directory's files holds the content of a file copied there |
| Materialize.PutFilesOutside | script.py:65-68 | a path that none of the files is copied to keeps what it held |
| Materialize.StoreFilesTarget | script.py:64-68 | `shutil.copy`: every destination of the walk holds the content of a walked file copied there |
| Materialize.DstRootOfTop | script.py:61 | the top directory `./` maps to the instance directory itself |
| Materialize.DstRootSwapsPrefix | script.py:61 | for a root with no further `./` only the leading `./` is rewritten |
| Materialize.DotEndingNameMisplaces | script.py:61 | a directory named `v1.` sends its child `b` to `<dst>v1<dst>b` instead of `<dst>v1./b` |
| Substitute.Rewrite | script.py:92 | reference definition of the `re.sub` call: each occurrence found by `MatchAt` becomes `"<old value>": "<value>",`, the rest is kept; `TokensLossless`, `EveryOccurrenceReplaced`, `EveryOccurrenceRewritten`, `RewriteWithoutMatch` and `RewriteWhole` state it |
| Substitute.MatchAt | script.py:16 | a match at `p` spans `"K": "` + value + `",`, with a non-empty quote-free value |
| Substitute.MatchAtComplete | script.py:92 | every occurrence of `"K": "X",` with a non-empty quote-free `X` is found with that `X` |
| Substitute.TokensLossless | script.py:92 | the `re.sub` scan loses nothing: the text between matches is kept as it was |
| Substitute.HitsAreValues | script.py:92 | every replaced occurrence had a non-empty, quote-free old value |
| Substitute.PatternKeysPlain | script.py:12-28 | the JSON keys `name` and `displayName` of the three patterns are quote-free and start with neither ':' nor ',' |
| Substitute.NoStraddle | script.py:92 | for such a key, a match that starts before an occurrence `"K": "x",` ends at or before it, so non-overlapping matching cannot swallow it |
| Substitute.TokensReach | script.py:92 | when no match between two positions runs past the second, the left-to-right scan from the first passes through the second |
| Substitute.EveryOccurrenceReplaced | script.py:92 | every occurrence `"K": "x",` (non-empty, quote-free `x`) anywhere in the text becomes one replaced match with old value `x`, whatever precedes it |
| Substitute.EveryOccurrenceRewritten | script.py:92 | so the rewritten text holds `"x": "V",` where that occurrence stood, followed by the rewrite of what comes after it |
| Substitute.RewriteWithoutMatch | script.py:92 | content without any full occurrence `"K": "x",` (non-empty, quote-free `x`) is written back unchanged |
| Substitute.RewriteWithoutComma | script.py:92 | content with no comma is written back unchanged, because every match ends in `",` |
| Substitute.RewriteKeepsLastField | script.py:92 | `{"name": "old"}`, a last field without a trailing comma, is not rewritten |
| Substitute.RewriteKeepsEmptyValue | script.py:92 | `"name": "",` is not rewritten, because `[^"]+` needs at least one character |
| Substitute.RewriteWhole | script.py:92 | a text that is exactly one occurrence `"K": "x",` is rewritten to `"x": "V",` |
| Substitute.RewriteSwapsKey | script.py:92 | `"name": "old",` becomes `"old": "Acme Corp",`: group 1 lands in the key position |
| Substitute.ReadText | script.py:89-90 | the text-mode read leaves no `\r` and keeps text without one |
| Substitute.ReadTextReplaces | script.py:89-90 | universal newlines: the read equals replacing every `\r\n` by `\n`, then every remaining `\r` by `\n` |
| Substitute.ReadTextIdempotent | script.py:89-90 | reading back text read in text mode changes nothing more |
| Substitute.ReplaceDir | script.py:72-97 | reference definition of `replace_project_dir` over the glob oracle; `ReplaceProjectDir` is proved equal to it; `ReplaceMatchesKeys`, `ReplaceMatchesKeepBinary` and `NoDescent` state it |
| Substitute.ReplaceProjectDir | script.py:72-97 | the glob loop with its recursive calls gives the file map and escaping exception of `ReplaceDir`; directories are unchanged |
| Substitute.ReplaceMatchesKeys | script.py:78-97 | rewriting never creates or deletes a file |
| Substitute.ReplaceMatchesKeepBinary | script.py:85-87 | a file the binary check flags is never rewritten, however often or deep the glob matches it |
| Substitute.NoDescent | script.py:74-84 | when a literal directory path globs to itself, no directory is descended into and only the matched files are rewritten |
| Substitute.Resolve | script.py:112-118 | the value is the key's own, else `Default`'s, and there is none exactly when both are missing |
| Substitute.TargetPathPlain | script.py:103-109 | without backslashes the target path is `join(".instances", user) + "/" + File` |
| Substitute.TargetPath | script.py:103-109 | reference definition of the target path of a pattern; `TargetPathPlain` and `BackslashUserDiverges` state it |
| Substitute.ReplacePatterns | script.py:100-123 | reference definition of the loop over `PATTERNS` with its early `return False`; `ReplaceProject` is proved equal to it |
| Substitute.ReplaceProject | script.py:100-123 | the pattern loop with its early `return False` gives the file map and outcome of `ReplacePatterns` over `PATTERNS` |
| Substitute.FalseMeansUnresolved | script.py:110-118 | False is returned only when `Default` is missing and so is some pattern's key |
| Substitute.StopsAtUnresolved | script.py:106-121 | at the first unresolved pattern the run returns False; later patterns are not applied and earlier rewrites remain |
| Substitute.NothingWithoutFullName | script.py:12-28 | with neither `Full Name` nor `Default`, the first pattern stops the run before any file is touched |
| Substitute.ReplacePatternsPreserves | script.py:100-123 | `replace_project` neither creates nor deletes files and leaves binary files as they were |
| Build.Commands | script.py:130-141 | five commands: the first three prefixed `cd .instances/<user> && `, the last two `cd .instances/<user>/android && ` |
| Build.RunCommands | script.py:144-152 | reference definition of the fail-fast command loop; `RunInOrder` is proved equal to it; `FailFast` states it |
| Build.FailFast | script.py:144-152 | commands are issued in order; all but the last issued exited 0; the run stops at the first non-zero status; success exactly when all exit 0 |
| Build.IssuedPrefix | script.py:144-151 | the issued commands are a prefix of the list, and every one before the last issued exited 0 |
| Build.SucceedsIffAllZero | script.py:144-152 | the run succeeds exactly when every command exits 0, and then all five were issued |
| Build.FailsAtLast | script.py:149-151 | a failed run ends at the command whose status was non-zero |
| Build.RunInOrder | script.py:144-152 | the `for command in commands` loop with its early `return False` gives the outcome and issued commands of `RunCommands` |
| Build.BuildProject | script.py:125-152 | the command loop with its early return gives the outcome and issued commands of `RunCommands` |
| Pipeline.Process | script.py:154-166 | reference definition of `process_config`; `ProcessConfig` is proved equal to it; `ProcessShortCircuit` and `ProcessWrites` state it |
| Pipeline.ProcessConfig | script.py:154-166 | the chain of copy, substitution and build leaves the state of `Process` |
| Pipeline.BackslashUserDiverges | script.py:103-109 | a user name with a backslash makes the substitution's target path differ from the path the copy wrote |
| Pipeline.ProcessShortCircuit | script.py:154-166 | without `App Username` the lookup raises `KeyError` and nothing is touched; commands are issued only after the substitution returned True; success exactly when all three stages succeed |
| Pipeline.ProcessWrites | script.py:154-166 | a run adds exactly the copies of the walked files and deletes nothing; each copy holds a walked file's content, kept as it is when the binary check flags it or when no pattern resolves |
| Pipeline.ProcessFiles | script.py:154-166 | with a user name, the files a run leaves are those the pattern substitution leaves of the copied tree |
| Pipeline.SubstitutedCopies | script.py:154-166 | copying then substituting adds exactly the copy targets, and each target holds a walked file's content, kept for binary files and when no pattern resolves |
| Pipeline.NewestWithConfig | script.py:229-236 | the index found is the newest comment with a block; none when no comment has one |
| Pipeline.TargetBody | script.py:219-243 | the candidate text has a block and is the body or a comment; there is none exactly when neither has a block |
| Pipeline.NewestCommentWins | script.py:229-243 | the newest comment with a block is chosen even when the body has one too |
| Pipeline.BodyFallback | script.py:240-243 | without a block in any comment, the body is the candidate when it has a block |
| Pipeline.IssueConfig | script.py:219-254 | one issue yields a config exactly when it is chosen, and then the config is `ChosenConfig` |
| Pipeline.FindTarget | script.py:220-243 | the reverse index loop with its early exit and the body fallback compute `TargetBody` |
| Pipeline.SelectIssue | script.py:245-257 | the chosen issue is the first whose config is non-empty; every earlier issue has no block or the config `{}` |
| Pipeline.ChosenConfig | script.py:250-254 | a processed config is non-empty, with valid keys and trimmed values |
| Pipeline.RunIssues | script.py:219-257 | the issue loop processes exactly the issue `SelectIssue` picks, once, and then stops; nothing is touched when no issue qualifies |

## Left out

- EveryOccurrenceReplaced: stated for JSON keys that are quote-free and do not start with ':' or ','
  (`PlainKey`). Every key of `PATTERNS` is one (`PatternKeysPlain`). For other keys, one
  occurrence can overlap another, and the lemma says nothing about them.
- The GitHub client (script.py:6, script.py:206-216): issues and their comment bodies are input
  sequences. The issue order is the order the client returns.
- Reading `sys.argv`, the environment and `.env` (script.py:10, script.py:187-203). This includes
  the latent `IndexError` when exactly three argv entries are given, because `sys.argv[3]` is
  read.
- `print` logging throughout.
- Real I/O. The filesystem is a map from paths to already-decoded text plus a set of directories.
  It does not model UTF-8 decoding errors, byte-exact copying, permissions, I/O errors, symlinks,
  `os.walk` error callbacks, or paths that are both a file and a directory.
- The Windows separator: the host is taken to be POSIX (`os.sep == "/"`, `posixpath.join`).
- `glob.glob`, `is_binary` and `os.system` are oracles. Glob is a function from pattern to matches,
  with no assumption about real glob syntax. The binary check is a predicate on the file's path
and its content. The
  shell is a function from command to exit status. The `npm` and `gradlew` commands themselves
  are not modelled.
- Python's recursion limit is a `depth` budget on `replace_project_dir`. Spending it stands for
  `RecursionError`.
- `CopyProject` takes the template tree as a snapshot. This is sound when `App Username` is a
  relative name without `..`: the walk then never enters `.instances`, the only place it writes.
  Other user names can write inside the walked tree (see the line on path traversal below), and
  what the walk would then see of its own writes is not modelled.
- A `None` issue or comment body is left out: `has_config(None)` would raise `TypeError`.
- Validation of `App Username` against path traversal is left out; the code joins it unchecked.
- Substitute.ReplaceProjectDir: requires a value without backslashes. `re.sub` would read
  backslashes in the replacement template as escapes, and those escapes are not modelled.
- Substitute.ReplaceProject: requires that every value a pattern resolves to (its key, or else
  `Default`) has no backslash (`PlainValues`), for the same reason. Other config values, and
  `App Username`, may hold backslashes; `Pipeline.BackslashUserDiverges` shows how such a user
  name sends the substitution to other paths than the copy.
- Pipeline.ProcessConfig: requires `PlainValues` of the config, for the same reason.
- Pipeline.RunIssues: requires `PlainValues` of the config of the issue that is chosen, for the
  same reason; other issue texts and other keys are unrestricted.
- Materialize.PruneDirs: requires a listing with distinct names, as a real directory listing has
  (`Materialize.WellFormed` for the whole tree).
- `copy_project` always returns True, so the `== False` branch of `process_config`
  (script.py:157-159) cannot be taken and is not written out.
