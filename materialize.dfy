/**
 * `copy_project` in script.py: walk the template tree top-down with `os.walk("./")`, prune the
 * directory list in place before descending, and copy every file of every visited directory to
 * `root.replace("./", ".instances/<user>/")`.
 */
module Materialize {
  import opened Common
  import opened Strings
  import opened Paths
  import opened FileStore

  /** The template tree as `os.walk` lists it: subdirectories and files, each in listing order. */
  datatype Tree = Dir(subdirs: seq<Sub>, files: seq<FileEntry>)
  datatype Sub = Sub(name: string, tree: Tree)
  datatype FileEntry = FileEntry(name: string, data: string)

  const InstancesDir: string := ".instances"
  const SrcDir: string := "./"

  /** The names removed by the three guarded `dirs.remove` calls, in that order. */
  const Excluded: seq<string> := [".git", ".github", InstancesDir]

  /** `os.path.join(INSTANCES_DIR, app_username) + os.path.sep`. */
  function DstDir(user: string): string {
    Join(InstancesDir, user) + [Sep]
  }

  predicate Distinct(s: seq<string>) {
    forall i, j :: 0 <= i < j < |s| ==> s[i] != s[j]
  }

  function DirNames(t: Tree): (r: seq<string>)
    ensures |r| == |t.subdirs| && forall k :: 0 <= k < |r| ==> r[k] == t.subdirs[k].name
  {
    seq(|t.subdirs|, k requires 0 <= k < |t.subdirs| => t.subdirs[k].name)
  }

  /** What a real directory listing guarantees: names are unique within a directory. */
  predicate WellFormed(t: Tree) {
    Distinct(DirNames(t)) && forall k :: 0 <= k < |t.subdirs| ==> WellFormed(t.subdirs[k].tree)
  }

  predicate Dotted(d: string) {
    StartsWith(d, ".")
  }

  // ----- pruning of `dirs` -----

  /** `list.remove(x)`: drops the first element equal to `x` (callers check `x in dirs` first). */
  function RemoveFirst(s: seq<string>, x: string): seq<string> {
    if s == [] then []
    else if s[0] == x then s[1..]
    else [s[0]] + RemoveFirst(s[1..], x)
  }

  /** Every element different from `x`. */
  function Without(s: seq<string>, x: string): seq<string> {
    if s == [] then [] else (if s[0] == x then [] else [s[0]]) + Without(s[1..], x)
  }

  /** Reference: the listing without `.git`, `.github` and `.instances`. */
  function DropExcluded(s: seq<string>): (r: seq<string>)
    ensures forall d :: d in r <==> d in s && d !in Excluded
  {
    if s == [] then [] else (if s[0] in Excluded then [] else [s[0]]) + DropExcluded(s[1..])
  }

  /**
   * Reference for the dot loop: a dotted entry is removed, and the entry after it (which slides
   * into the removed slot while the loop index moves on) is kept without being examined.
   */
  function SkipDotted(s: seq<string>): seq<string> {
    if s == [] then []
    else if Dotted(s[0]) then (if |s| == 1 then [] else [s[1]] + SkipDotted(s[2..]))
    else [s[0]] + SkipDotted(s[1..])
  }

  /** The directories `os.walk` descends into after `copy_project` has pruned `dirs`. */
  function Pruned(dirs: seq<string>): seq<string> {
    SkipDotted(DropExcluded(dirs))
  }

  lemma {:induction false} RemoveFirstDistinct(s: seq<string>, x: string)
    requires Distinct(s)
    ensures RemoveFirst(s, x) == Without(s, x)
    ensures Distinct(Without(s, x))
    ensures forall d :: d in Without(s, x) <==> d in s && d != x
  {
    if s != [] {
      RemoveFirstDistinct(s[1..], x);
      if s[0] == x {
        assert x !in s[1..];
        WithoutAbsent(s[1..], x);
      } else {
        DistinctCons(s[0], Without(s[1..], x));
      }
    }
  }

  lemma DistinctCons(a: string, r: seq<string>)
    requires a !in r && Distinct(r)
    ensures Distinct([a] + r)
  {
    var s := [a] + r;
    forall i, j | 0 <= i < j < |s| ensures s[i] != s[j] {
      if i == 0 {
        assert s[j] == r[j - 1];
      } else {
        assert s[i] == r[i - 1] && s[j] == r[j - 1];
      }
    }
  }

  lemma {:induction false} WithoutConcat(p: seq<string>, q: seq<string>, x: string)
    ensures Without(p + q, x) == Without(p, x) + Without(q, x)
  {
    if p != [] {
      assert (p + q)[1..] == p[1..] + q;
      WithoutConcat(p[1..], q, x);
    } else {
      assert p + q == q;
    }
  }

  lemma {:induction false} WithoutAbsent(s: seq<string>, x: string)
    requires x !in s
    ensures Without(s, x) == s
  {
    if s != [] {
      WithoutAbsent(s[1..], x);
    }
  }

  lemma {:induction false} WithoutExcluded(s: seq<string>)
    ensures Without(Without(Without(s, ".git"), ".github"), InstancesDir) == DropExcluded(s)
  {
    if s != [] {
      WithoutExcluded(s[1..]);
      var head := [s[0]];
      assert s == head + s[1..];
      WithoutConcat(head, s[1..], ".git");
      WithoutConcat(Without(head, ".git"), Without(s[1..], ".git"), ".github");
      WithoutConcat(Without(Without(head, ".git"), ".github"),
                    Without(Without(s[1..], ".git"), ".github"), InstancesDir);
    }
  }

  /** Removing the element at index `i` of a duplicate-free list is what `remove` of it does. */
  lemma {:induction false} RemoveAt(s: seq<string>, i: nat)
    requires Distinct(s) && i < |s|
    ensures RemoveFirst(s, s[i]) == s[..i] + s[i + 1..]
    ensures Distinct(s[..i] + s[i + 1..])
  {
    if i > 0 {
      RemoveAt(s[1..], i - 1);
      assert s[1..][..i - 1] == s[1..i];
      assert [s[0]] + s[1..i] == s[..i];
    }
    var r := s[..i] + s[i + 1..];
    forall a, b | 0 <= a < b < |r| ensures r[a] != r[b] {
      var a' := if a < i then a else a + 1;
      var b' := if b < i then b else b + 1;
      assert r[a] == s[a'] && r[b] == s[b'];
    }
  }

  /** The first half of the pruning: the three guarded removals. */
  method DropListed(dirs: seq<string>) returns (kept: seq<string>)
    requires Distinct(dirs)
    ensures kept == DropExcluded(dirs) && Distinct(kept)
  {
    kept := dirs;
    RemoveFirstDistinct(kept, ".git");
    if ".git" in kept {
      kept := RemoveFirst(kept, ".git");
    } else {
      WithoutAbsent(kept, ".git");
    }
    RemoveFirstDistinct(kept, ".github");
    if ".github" in kept {
      kept := RemoveFirst(kept, ".github");
    } else {
      WithoutAbsent(kept, ".github");
    }
    RemoveFirstDistinct(kept, InstancesDir);
    if InstancesDir in kept {
      kept := RemoveFirst(kept, InstancesDir);
    } else {
      WithoutAbsent(kept, InstancesDir);
    }
    WithoutExcluded(dirs);
  }

  /**
   * The in-place pruning of `dirs` in `copy_project`: three guarded removals, then
   * `for dir in dirs: if dir.startswith("."): dirs.remove(dir)`. The loop index of Python's list
   * iterator is `i`; a removal shifts the rest left, so the next entry is stepped over.
   */
  method PruneDirs(dirs: seq<string>) returns (kept: seq<string>)
    requires Distinct(dirs)
    ensures kept == Pruned(dirs)
  {
    kept := DropListed(dirs);
    ghost var listed := kept;
    ghost var done: seq<string> := [];
    ghost var j := 0;
    var i := 0;
    while i < |kept|
      invariant 0 <= j <= |listed|
      invariant kept == done + listed[j..]
      invariant i == |done| || (i == |done| + 1 && j == |listed|)
      invariant SkipDotted(listed) == done + SkipDotted(listed[j..])
      invariant Distinct(kept)
      decreases |listed| - j
    {
      SliceAt(done, listed, j);
      if StartsWith(kept[i], ".") {
        DotStep(done, listed, j);
        kept := RemoveFirst(kept, kept[i]);
        if j + 1 < |listed| {
          done := done + [listed[j + 1]];
          j := j + 2;
        } else {
          j := |listed|;
        }
      } else {
        PlainStep(done, listed, j);
        done := done + [listed[j]];
        j := j + 1;
      }
      i := i + 1;
    }
  }

  /** Proof helper, no counterpart in script.py: regroups one concatenation so the caller stays cheap. */
  lemma Assoc(a: seq<string>, x: string, b: seq<string>)
    ensures a + ([x] + b) == (a + [x]) + b
  {
  }

  /** Proof helper, no counterpart in script.py: one listing index as a slice step, kept apart for cost. */
  lemma SliceAt(done: seq<string>, listed: seq<string>, j: nat)
    requires j < |listed|
    ensures (done + listed[j..])[|done|] == listed[j]
    ensures (done + listed[j..])[..|done|] == done
    ensures (done + listed[j..])[|done| + 1..] == listed[j + 1..]
  {
  }

  /** One turn of the dot loop that removes `listed[j]`; the next entry slides into its slot. */
  lemma DotStep(done: seq<string>, listed: seq<string>, j: nat)
    requires j < |listed| && Dotted(listed[j]) && Distinct(done + listed[j..])
    requires SkipDotted(listed) == done + SkipDotted(listed[j..])
    ensures RemoveFirst(done + listed[j..], (done + listed[j..])[|done|]) == done + listed[j + 1..]
    ensures Distinct(done + listed[j + 1..])
    ensures j + 1 < |listed| ==> done + listed[j + 1..] == (done + [listed[j + 1]]) + listed[j + 2..]
    ensures j + 1 < |listed| ==> SkipDotted(listed) == (done + [listed[j + 1]]) + SkipDotted(listed[j + 2..])
    ensures j + 1 == |listed| ==> done + listed[j + 1..] == done + listed[|listed|..]
    ensures j + 1 == |listed| ==> SkipDotted(listed) == done + SkipDotted(listed[|listed|..])
  {
    DotRemove(done, listed, j);
    DotSkip(done, listed, j);
  }

  /** Removing the entry at the loop index leaves the rest, still without duplicates. */
  lemma DotRemove(done: seq<string>, listed: seq<string>, j: nat)
    requires j < |listed| && Distinct(done + listed[j..])
    ensures RemoveFirst(done + listed[j..], (done + listed[j..])[|done|]) == done + listed[j + 1..]
    ensures Distinct(done + listed[j + 1..])
  {
    var kept := done + listed[j..];
    SliceAt(done, listed, j);
    RemoveAt(kept, |done|);
    assert kept[..|done|] + kept[|done| + 1..] == done + listed[j + 1..];
  }

  /** After a removal the loop steps over the entry that slid in, which therefore survives. */
  lemma DotSkip(done: seq<string>, listed: seq<string>, j: nat)
    requires j < |listed| && Dotted(listed[j])
    requires SkipDotted(listed) == done + SkipDotted(listed[j..])
    ensures j + 1 < |listed| ==> done + listed[j + 1..] == (done + [listed[j + 1]]) + listed[j + 2..]
    ensures j + 1 < |listed| ==> SkipDotted(listed) == (done + [listed[j + 1]]) + SkipDotted(listed[j + 2..])
    ensures j + 1 == |listed| ==> done + listed[j + 1..] == done + listed[|listed|..]
    ensures j + 1 == |listed| ==> SkipDotted(listed) == done + SkipDotted(listed[|listed|..])
  {
    SkipDottedStep(listed, j);
    if j + 1 < |listed| {
      Assoc(done, listed[j + 1], listed[j + 2..]);
      Assoc(done, listed[j + 1], SkipDotted(listed[j + 2..]));
    }
  }

  /** One turn of the dot loop that keeps `listed[j]`. */
  lemma PlainStep(done: seq<string>, listed: seq<string>, j: nat)
    requires j < |listed| && !Dotted(listed[j])
    requires SkipDotted(listed) == done + SkipDotted(listed[j..])
    ensures done + listed[j..] == (done + [listed[j]]) + listed[j + 1..]
    ensures SkipDotted(listed) == (done + [listed[j]]) + SkipDotted(listed[j + 1..])
  {
    SkipPlainStep(listed, j);
    assert listed[j..] == [listed[j]] + listed[j + 1..];
    Assoc(done, listed[j], listed[j + 1..]);
    Assoc(done, listed[j], SkipDotted(listed[j + 1..]));
  }

  lemma SkipDottedStep(listed: seq<string>, j: nat)
    requires j < |listed| && Dotted(listed[j])
    ensures j + 1 < |listed| ==> SkipDotted(listed[j..]) == [listed[j + 1]] + SkipDotted(listed[j + 2..])
    ensures j + 1 < |listed| ==> listed[j + 1..] == [listed[j + 1]] + listed[j + 2..]
    ensures j + 1 == |listed| ==> SkipDotted(listed[j..]) == [] && listed[j + 1..] == []
  {
    assert listed[j..][1..] == listed[j + 1..];
    if j + 1 < |listed| {
      assert listed[j..][2..] == listed[j + 2..];
    }
  }

  lemma SkipPlainStep(listed: seq<string>, j: nat)
    requires j < |listed| && !Dotted(listed[j])
    ensures SkipDotted(listed[j..]) == [listed[j]] + SkipDotted(listed[j + 1..])
  {
    assert listed[j..][1..] == listed[j + 1..];
  }

  /** `.git`, `.github` and `.instances` never survive the pruning. */
  lemma PrunedDropsExcluded(dirs: seq<string>)
    ensures forall x :: x in Excluded ==> x !in Pruned(dirs)
  {
    SkipDottedSubset(DropExcluded(dirs));
  }

  lemma {:induction false} SkipDottedSubset(s: seq<string>)
    ensures forall d :: d in SkipDotted(s) ==> d in s
  {
    if s != [] {
      if Dotted(s[0]) {
        if |s| > 1 {
          SkipDottedSubset(s[2..]);
        }
      } else {
        SkipDottedSubset(s[1..]);
      }
    }
  }

  lemma {:induction false} SkipDottedKeeps(s: seq<string>)
    ensures forall d :: d in s && !Dotted(d) ==> d in SkipDotted(s)
  {
    if s != [] {
      if Dotted(s[0]) {
        if |s| > 1 {
          SkipDottedKeeps(s[2..]);
          assert forall d :: d in s ==> d == s[0] || d == s[1] || d in s[2..];
        }
      } else {
        SkipDottedKeeps(s[1..]);
      }
    }
  }

  /** The pruning keeps every entry without a leading dot and adds none. */
  lemma PrunedKeepsUndotted(dirs: seq<string>)
    ensures forall d :: d in dirs && !Dotted(d) ==> d in Pruned(dirs)
    ensures forall d :: d in Pruned(dirs) ==> d in dirs
  {
    SkipDottedKeeps(DropExcluded(dirs));
    SkipDottedSubset(DropExcluded(dirs));
  }

  /** The dot loop steps over the entry after each removal: `.b` survives in `[.a, .b, c]`. */
  lemma PruneSkipsAfterRemoval()
    ensures Pruned([".a", ".b", "c"]) == [".b", "c"]
  {
    assert DropExcluded([".a", ".b", "c"]) == [".a", ".b", "c"];
    assert Dotted(".a");
    assert [".a", ".b", "c"][2..] == ["c"];
    assert "c"[..1] == "c" && !Dotted("c");
  }

  // ----- os.walk and the copy -----

  /** One triple `os.walk` yields (the names leading to `root` are kept for the proofs). */
  datatype Visit = Visit(names: seq<string>, root: string, files: seq<FileEntry>)

  /** A directory still to be listed: the stack entries of `os.walk`. */
  datatype Frame = Frame(names: seq<string>, root: string, tree: Tree)

  /** The subdirectory called `name`, looked up when `os.walk` descends into `join(top, name)`. */
  function SubIndex(t: Tree, name: string, from: nat := 0): (r: Option<nat>)
    decreases |t.subdirs| - from
    ensures r.Some? ==> from <= r.value < |t.subdirs| && t.subdirs[r.value].name == name
    ensures r.None? ==> forall k :: from <= k < |t.subdirs| ==> t.subdirs[k].name != name
  {
    if from >= |t.subdirs| then None
    else if t.subdirs[from].name == name then Some(from)
    else SubIndex(t, name, from + 1)
  }

  /** Top-down `os.walk`: a directory first, then what is left of `dirs` after pruning, in order. */
  function Visits(names: seq<string>, root: string, t: Tree): seq<Visit>
    decreases t, 1
  {
    [Visit(names, root, t.files)] + VisitAll(names, root, t, Pruned(DirNames(t)))
  }

  function VisitAll(names: seq<string>, root: string, t: Tree, ds: seq<string>): seq<Visit>
    decreases t, 0, |ds|
  {
    if ds == [] then []
    else
      (match SubIndex(t, ds[0])
       case None => []
       case Some(k) => Visits(names + [ds[0]], Join(root, ds[0]), t.subdirs[k].tree))
      + VisitAll(names, root, t, ds[1..])
  }

  /** `os.walk("./")` over the template tree, with `copy_project`'s pruning applied. */
  function Walk(tree: Tree): seq<Visit> {
    Visits([], SrcDir, tree)
  }

  /** The visits still to come from a stack whose last element is popped first. */
  function StackVisits(stack: seq<Frame>): seq<Visit>
    decreases |stack|
  {
    if stack == [] then []
    else
      var top := stack[|stack| - 1];
      Visits(top.names, top.root, top.tree) + StackVisits(stack[..|stack| - 1])
  }

  /** `root.replace(src_dir, dst_dir)`: every "./" in the path, not only the leading one. */
  function DstRoot(root: string, dst: string): string {
    ReplaceAll(root, SrcDir, dst)
  }

  /** The copies of one directory's files into `dstRoot`, in listing order. */
  function PutFiles(m: map<string, string>, dstRoot: string, files: seq<FileEntry>): map<string, string>
    decreases |files|
  {
    if files == [] then m
    else
      var f := files[|files| - 1];
      PutFiles(m, dstRoot, files[..|files| - 1])[Join(dstRoot, f.name) := f.data]
  }

  /** The file contents after copying the files of the visits in order. */
  function StoreFiles(m: map<string, string>, vs: seq<Visit>, dst: string): map<string, string>
    decreases |vs|
  {
    if vs == [] then m
    else
      var v := vs[|vs| - 1];
      PutFiles(StoreFiles(m, vs[..|vs| - 1], dst), DstRoot(v.root, dst), v.files)
  }

  /** The directories `os.makedirs(dst_root, exist_ok=True)` creates for the visits. */
  function MadeDirs(vs: seq<Visit>, dst: string): set<string>
    decreases |vs|
  {
    if vs == [] then {}
    else MadeDirs(vs[..|vs| - 1], dst) + DirsOf(DstRoot(vs[|vs| - 1].root, dst))
  }

  lemma PushFrame(stack: seq<Frame>, f: Frame)
    ensures StackVisits(stack + [f]) == Visits(f.names, f.root, f.tree) + StackVisits(stack)
  {
    assert (stack + [f])[..|stack|] == stack;
  }

  /** Popping `top` lists it and leaves its pruned subdirectories in front of what was below it. */
  lemma PopFrame(done: seq<Visit>, stack: seq<Frame>, pushed: seq<Frame>, walk: seq<Visit>)
    requires stack != [] && done + StackVisits(stack) == walk
    requires var top := stack[|stack| - 1];
      StackVisits(pushed) == VisitAll(top.names, top.root, top.tree, Pruned(DirNames(top.tree))) + StackVisits(stack[..|stack| - 1])
    ensures var top := stack[|stack| - 1];
      (done + [Visit(top.names, top.root, top.tree.files)]) + StackVisits(pushed) == walk
    ensures |StackVisits(pushed)| < |StackVisits(stack)|
  {
    var top := stack[|stack| - 1];
    var rest := stack[..|stack| - 1];
    var visit := Visit(top.names, top.root, top.tree.files);
    var below := VisitAll(top.names, top.root, top.tree, Pruned(DirNames(top.tree)));
    var after := StackVisits(rest);
    assert StackVisits(stack) == Visits(top.names, top.root, top.tree) + after;
    assert Visits(top.names, top.root, top.tree) == [visit] + below;
    VisitAssoc(done, visit, below, after);
  }

  /** Proof helper, no counterpart in script.py: regroups visit sequences so the caller stays cheap. */
  lemma VisitAssoc(done: seq<Visit>, v: Visit, below: seq<Visit>, after: seq<Visit>)
    ensures done + (([v] + below) + after) == (done + [v]) + (below + after)
  {
  }

  lemma PopWellFormed(stack: seq<Frame>)
    requires stack != [] && FramesWellFormed(stack)
    ensures WellFormed(stack[|stack| - 1].tree) && FramesWellFormed(stack[..|stack| - 1])
  {
    var rest := stack[..|stack| - 1];
    forall i | 0 <= i < |rest| ensures WellFormed(rest[i].tree) {
      assert rest[i] == stack[i];
    }
  }

  lemma CopyStep(m: map<string, string>, done: seq<Visit>, v: Visit, dst: string)
    ensures StoreFiles(m, done + [v], dst) == PutFiles(StoreFiles(m, done, dst), DstRoot(v.root, dst), v.files)
    ensures MadeDirs(done + [v], dst) == MadeDirs(done, dst) + DirsOf(DstRoot(v.root, dst))
  {
    assert (done + [v])[..|done|] == done;
  }

  /** The inner `for file in files` loop of `copy_project`: `shutil.copy` of each file, in order. */
  method CopyFiles(fs: Store, dstRoot: string, files: seq<FileEntry>)
    modifies fs
    ensures fs.files == PutFiles(old(fs.files), dstRoot, files)
    ensures fs.dirs == old(fs.dirs)
  {
    var k := 0;
    while k < |files|
      invariant 0 <= k <= |files|
      invariant fs.files == PutFiles(old(fs.files), dstRoot, files[..k])
      invariant fs.dirs == old(fs.dirs)
    {
      var file := files[k];
      fs.Put(Join(dstRoot, file.name), file.data);
      assert files[..k + 1][..k] == files[..k];
      k := k + 1;
    }
    assert files[..k] == files;
  }

  /** Every directory still on the stack has unique names throughout. */
  predicate FramesWellFormed(stack: seq<Frame>) {
    forall i :: 0 <= i < |stack| ==> WellFormed(stack[i].tree)
  }

  lemma FramesPush(stack: seq<Frame>, f: Frame)
    requires FramesWellFormed(stack) && WellFormed(f.tree)
    ensures FramesWellFormed(stack + [f])
  {
    forall i | 0 <= i < |stack| + 1 ensures WellFormed((stack + [f])[i].tree) {
      if i < |stack| {
        assert (stack + [f])[i] == stack[i];
      }
    }
  }

  lemma VisitAllFirst(names: seq<string>, root: string, t: Tree, ds: seq<string>, c: nat)
    requires c < |ds|
    ensures SubIndex(t, ds[c]).None? ==> VisitAll(names, root, t, ds[c..]) == VisitAll(names, root, t, ds[c + 1..])
    ensures SubIndex(t, ds[c]).Some? ==>
      VisitAll(names, root, t, ds[c..])
      == Visits(names + [ds[c]], Join(root, ds[c]), t.subdirs[SubIndex(t, ds[c]).value].tree) + VisitAll(names, root, t, ds[c + 1..])
  {
    assert ds[c..][0] == ds[c] && ds[c..][1..] == ds[c + 1..];
  }

  lemma PushChild(pushed: seq<Frame>, stack: seq<Frame>, top: Frame, dirs: seq<string>, c: nat, k: nat)
    requires c < |dirs| && SubIndex(top.tree, dirs[c]) == Some(k)
    requires StackVisits(pushed) == VisitAll(top.names, top.root, top.tree, dirs[c + 1..]) + StackVisits(stack)
    ensures StackVisits(pushed + [Frame(top.names + [dirs[c]], Join(top.root, dirs[c]), top.tree.subdirs[k].tree)])
         == VisitAll(top.names, top.root, top.tree, dirs[c..]) + StackVisits(stack)
  {
    var child := Frame(top.names + [dirs[c]], Join(top.root, dirs[c]), top.tree.subdirs[k].tree);
    PushFrame(pushed, child);
    VisitAllFirst(top.names, top.root, top.tree, dirs, c);
  }

  lemma ChildWellFormed(t: Tree, k: nat)
    requires WellFormed(t) && k < |t.subdirs|
    ensures WellFormed(t.subdirs[k].tree)
  {
  }

  /** `os.walk` resuming after the caller pruned `dirs`: pushes them in reverse, so the first is walked first. */
  method PushDirs(stack: seq<Frame>, top: Frame, dirs: seq<string>) returns (stack': seq<Frame>)
    requires WellFormed(top.tree)
    requires FramesWellFormed(stack)
    ensures StackVisits(stack') == VisitAll(top.names, top.root, top.tree, dirs) + StackVisits(stack)
    ensures FramesWellFormed(stack')
  {
    stack' := stack;
    var c := |dirs|;
    assert dirs[c..] == [];
    while c > 0
      invariant 0 <= c <= |dirs|
      invariant StackVisits(stack') == VisitAll(top.names, top.root, top.tree, dirs[c..]) + StackVisits(stack)
      invariant FramesWellFormed(stack')
    {
      c := c - 1;
      var idx := SubIndex(top.tree, dirs[c]);
      if idx.Some? {
        var child := Frame(top.names + [dirs[c]], Join(top.root, dirs[c]), top.tree.subdirs[idx.value].tree);
        PushChild(stack', stack, top, dirs, c, idx.value);
        ChildWellFormed(top.tree, idx.value);
        FramesPush(stack', child);
        stack' := stack' + [child];
      } else {
        VisitAllFirst(top.names, top.root, top.tree, dirs, c);
      }
    }
    assert dirs[c..] == dirs;
  }

  /**
   * `copy_project`: the `for root, dirs, files in os.walk(src_dir)` loop, with `os.walk` written
   * out as its explicit stack. Each listed directory is pruned, its destination created, its files
   * copied, and then what is left of `dirs` is walked in order.
   */
  method CopyProject(fs: Store, tree: Tree, user: string) returns (ok: bool)
    requires WellFormed(tree)
    modifies fs
    ensures ok
    ensures fs.files == StoreFiles(old(fs.files), Walk(tree), DstDir(user))
    ensures fs.dirs == old(fs.dirs) + MadeDirs(Walk(tree), DstDir(user))
  {
    var srcDir := SrcDir;
    var dstDir := Join(InstancesDir, user) + [Sep];
    var stack := [Frame([], srcDir, tree)];
    ghost var done: seq<Visit> := [];
    PushFrame([], stack[0]);
    assert [] + [stack[0]] == stack;
    while stack != []
      invariant done + StackVisits(stack) == Walk(tree)
      invariant FramesWellFormed(stack)
      invariant fs.files == StoreFiles(old(fs.files), done, dstDir)
      invariant fs.dirs == old(fs.dirs) + MadeDirs(done, dstDir)
      decreases |StackVisits(stack)|
    {
      var top := stack[|stack| - 1];
      ghost var visit := Visit(top.names, top.root, top.tree.files);
      PopWellFormed(stack);
      CopyStep(old(fs.files), done, visit, dstDir);
      var dirs := PruneDirs(DirNames(top.tree));
      var dstRoot := ReplaceAll(top.root, srcDir, dstDir);
      fs.MakeDirs(dstRoot);
      CopyFiles(fs, dstRoot, top.tree.files);
      var pushed := PushDirs(stack[..|stack| - 1], top, dirs);
      PopFrame(done, stack, pushed, Walk(tree));
      stack := pushed;
      done := done + [visit];
    }
    assert done == Walk(tree);
    assert dstDir == DstDir(user);
    ok := true;
  }

  // ----- what the walk visits and what the copy writes -----

  lemma {:induction false} VisitsAvoidExcluded(names: seq<string>, root: string, t: Tree)
    requires forall n :: n in names ==> n !in Excluded
    ensures forall v :: v in Visits(names, root, t) ==> forall n :: n in v.names ==> n !in Excluded
    decreases t, 1
  {
    PrunedDropsExcluded(DirNames(t));
    VisitAllAvoidExcluded(names, root, t, Pruned(DirNames(t)));
  }

  lemma {:induction false} VisitAllAvoidExcluded(names: seq<string>, root: string, t: Tree, ds: seq<string>)
    requires forall n :: n in names ==> n !in Excluded
    requires forall d :: d in ds ==> d !in Excluded
    ensures forall v :: v in VisitAll(names, root, t, ds) ==> forall n :: n in v.names ==> n !in Excluded
    decreases t, 0, |ds|
  {
    if ds != [] {
      var idx := SubIndex(t, ds[0]);
      if idx.Some? {
        assert ds[0] in ds;
        VisitsAvoidExcluded(names + [ds[0]], Join(root, ds[0]), t.subdirs[idx.value].tree);
      }
      VisitAllAvoidExcluded(names, root, t, ds[1..]);
    }
  }

  /** Nothing under `.git`, `.github` or `.instances`, at any depth, is ever visited. */
  lemma WalkAvoidsExcluded(tree: Tree)
    ensures forall v :: v in Walk(tree) ==> forall n :: n in v.names ==> n !in Excluded
  {
    VisitsAvoidExcluded([], SrcDir, tree);
  }

  /** The directory reached by following `path` from `t`, if there is one. */
  function Reach(t: Tree, path: seq<string>): Option<Tree>
    decreases |path|
  {
    if path == [] then Some(t)
    else match SubIndex(t, path[0])
      case None => None
      case Some(k) => Reach(t.subdirs[k].tree, path[1..])
  }

  lemma {:induction false} VisitAllIncludes(names: seq<string>, root: string, t: Tree, ds: seq<string>, i: nat, k: nat)
    requires i < |ds| && SubIndex(t, ds[i]) == Some(k)
    ensures forall v :: v in Visits(names + [ds[i]], Join(root, ds[i]), t.subdirs[k].tree) ==> v in VisitAll(names, root, t, ds)
    decreases |ds|
  {
    if i > 0 {
      assert ds[1..][i - 1] == ds[i];
      VisitAllIncludes(names, root, t, ds[1..], i - 1, k);
    }
  }

  /** A subdirectory whose name has no leading dot survives pruning. */
  lemma UndottedSurvives(t: Tree, k: nat) returns (i: nat)
    requires k < |t.subdirs| && !Dotted(t.subdirs[k].name)
    ensures i < |Pruned(DirNames(t))| && Pruned(DirNames(t))[i] == t.subdirs[k].name
  {
    assert DirNames(t)[k] == t.subdirs[k].name;
    PrunedKeepsUndotted(DirNames(t));
    var ds := Pruned(DirNames(t));
    i :| 0 <= i < |ds| && ds[i] == t.subdirs[k].name;
  }

  lemma ConsPath(names: seq<string>, path: seq<string>)
    requires path != []
    ensures names + [path[0]] + path[1..] == names + path
  {
    assert [path[0]] + path[1..] == path;
  }

  /** The visits below an undotted subdirectory are among the visits of its parent. */
  lemma ChildVisitsIncluded(names: seq<string>, root: string, t: Tree, n: string)
    requires !Dotted(n) && SubIndex(t, n).Some?
    ensures var k := SubIndex(t, n).value;
      forall v :: v in Visits(names + [n], Join(root, n), t.subdirs[k].tree) ==> v in Visits(names, root, t)
  {
    var k := SubIndex(t, n).value;
    var i := UndottedSurvives(t, k);
    VisitAllIncludes(names, root, t, Pruned(DirNames(t)), i, k);
  }

  lemma {:induction false} VisitsReach(names: seq<string>, root: string, t: Tree, path: seq<string>)
    requires forall n :: n in path ==> !Dotted(n)
    requires Reach(t, path).Some?
    ensures exists v :: v in Visits(names, root, t) && v.names == names + path && v.files == Reach(t, path).value.files
    decreases |path|
  {
    if path == [] {
      var v := Visits(names, root, t)[0];
      assert v == Visit(names, root, t.files) && v in Visits(names, root, t);
      assert names + path == names;
    } else {
      var n := path[0];
      var k := SubIndex(t, n).value;
      assert n in path;
      assert forall m :: m in path[1..] ==> m in path;
      var child := t.subdirs[k].tree;
      assert Reach(t, path) == Reach(child, path[1..]);
      VisitsReach(names + [n], Join(root, n), child, path[1..]);
      ChildVisitsIncluded(names, root, t, n);
      var v :| v in Visits(names + [n], Join(root, n), child) && v.names == names + [n] + path[1..]
               && v.files == Reach(child, path[1..]).value.files;
      ConsPath(names, path);
      assert v in Visits(names, root, t);
    }
  }

  /** Every directory reached through names without a leading dot is visited, with its files. */
  lemma WalkReachesUndotted(tree: Tree, path: seq<string>)
    requires forall n :: n in path ==> !Dotted(n)
    requires Reach(tree, path).Some?
    ensures exists v :: v in Walk(tree) && v.names == path && v.files == Reach(tree, path).value.files
  {
    VisitsReach([], SrcDir, tree, path);
  }

  /** The destination paths of all files of the visits: no file is filtered out. */
  function CopyTargets(vs: seq<Visit>, dst: string): set<string> {
    set v, f | v in vs && f in v.files :: Join(DstRoot(v.root, dst), f.name)
  }

  lemma {:induction false} PutFilesKeys(m: map<string, string>, dstRoot: string, files: seq<FileEntry>)
    ensures PutFiles(m, dstRoot, files).Keys == m.Keys + set f | f in files :: Join(dstRoot, f.name)
  {
    if files != [] {
      var init := files[..|files| - 1];
      PutFilesKeys(m, dstRoot, init);
      assert forall f :: f in files <==> f in init || f == files[|files| - 1];
    }
  }

  /** The copy writes exactly the destination paths of the visited files, dotfiles included. */
  lemma {:induction false} StoreFilesKeys(m: map<string, string>, vs: seq<Visit>, dst: string)
    ensures StoreFiles(m, vs, dst).Keys == m.Keys + CopyTargets(vs, dst)
  {
    if vs != [] {
      var init := vs[..|vs| - 1];
      var v := vs[|vs| - 1];
      StoreFilesKeys(m, init, dst);
      PutFilesKeys(StoreFiles(m, init, dst), DstRoot(v.root, dst), v.files);
      assert forall w :: w in vs <==> w in init || w == v;
    }
  }

  /** The file `p` holds `data` as a copy: some walked file with that content has `p` as its destination. */
  predicate CopiedFrom(vs: seq<Visit>, dst: string, p: string, data: string) {
    exists v, f :: v in vs && f in v.files && p == Join(DstRoot(v.root, dst), f.name) && f.data == data
  }

  /** A destination of one directory's files holds the content of one of them (the last with that name). */
  lemma {:induction false} PutFilesTarget(m: map<string, string>, dstRoot: string, files: seq<FileEntry>, p: string)
    requires exists f :: f in files && p == Join(dstRoot, f.name)
    ensures p in PutFiles(m, dstRoot, files)
    ensures exists f :: f in files && p == Join(dstRoot, f.name) && PutFiles(m, dstRoot, files)[p] == f.data
    decreases |files|
  {
    var init := files[..|files| - 1];
    var last := files[|files| - 1];
    var r := PutFiles(m, dstRoot, files);
    assert r == PutFiles(m, dstRoot, init)[Join(dstRoot, last.name) := last.data];
    assert last in files;
    if p == Join(dstRoot, last.name) {
      assert r[p] == last.data;
    } else {
      var g :| g in files && p == Join(dstRoot, g.name);
      assert g in init by {
        assert files == init + [last];
      }
      PutFilesTarget(m, dstRoot, init, p);
      var h :| h in init && p == Join(dstRoot, h.name) && PutFiles(m, dstRoot, init)[p] == h.data;
      assert h in files && r[p] == h.data;
    }
  }

  /** A path none of the files is copied to keeps what it held. */
  lemma {:induction false} PutFilesOutside(m: map<string, string>, dstRoot: string, files: seq<FileEntry>, p: string)
    requires forall f :: f in files ==> p != Join(dstRoot, f.name)
    ensures (p in PutFiles(m, dstRoot, files) <==> p in m)
    ensures p in m ==> PutFiles(m, dstRoot, files)[p] == m[p]
    decreases |files|
  {
    if files != [] {
      var init := files[..|files| - 1];
      assert forall f :: f in init ==> f in files;
      assert files[|files| - 1] in files;
      PutFilesOutside(m, dstRoot, init, p);
    }
  }

  /** `shutil.copy`: every destination of the walk holds the content of a walked file copied there. */
  lemma {:induction false} StoreFilesTarget(m: map<string, string>, vs: seq<Visit>, dst: string, p: string)
    requires p in CopyTargets(vs, dst)
    ensures p in StoreFiles(m, vs, dst)
    ensures CopiedFrom(vs, dst, p, StoreFiles(m, vs, dst)[p])
    decreases |vs|
  {
    var init := vs[..|vs| - 1];
    var v := vs[|vs| - 1];
    assert v in vs;
    var before := StoreFiles(m, init, dst);
    var root := DstRoot(v.root, dst);
    var after := StoreFiles(m, vs, dst);
    assert after == PutFiles(before, root, v.files);
    if exists f :: f in v.files && p == Join(root, f.name) {
      PutFilesTarget(before, root, v.files, p);
      var f :| f in v.files && p == Join(root, f.name) && PutFiles(before, root, v.files)[p] == f.data;
      assert v in vs && f in v.files && p == Join(DstRoot(v.root, dst), f.name) && f.data == after[p];
    } else {
      var w, g :| w in vs && g in w.files && p == Join(DstRoot(w.root, dst), g.name);
      assert w in init by {
        assert vs == init + [v];
      }
      StoreFilesTarget(m, init, dst, p);
      PutFilesOutside(before, root, v.files, p);
      var u, h :| u in init && h in u.files && p == Join(DstRoot(u.root, dst), h.name) && h.data == before[p];
      assert u in vs && h in u.files && p == Join(DstRoot(u.root, dst), h.name) && h.data == after[p];
    }
  }

  /** The walk's first root "./" maps to the instance directory itself. */
  lemma DstRootOfTop(dst: string)
    ensures DstRoot(SrcDir, dst) == dst
  {
    assert SrcDir[..|SrcDir|] == SrcDir && SrcDir[|SrcDir|..] == [];
  }

  /** While no directory name on the way ends in '.', only the leading "./" is rewritten. */
  lemma DstRootSwapsPrefix(rest: string, dst: string)
    requires forall i :: !OccursAt(rest, SrcDir, i)
    ensures DstRoot(SrcDir + rest, dst) == dst + rest
  {
    var p := SrcDir + rest;
    assert p[..|SrcDir|] == SrcDir && p[|SrcDir|..] == rest;
  }

  /** A directory named "v1." sends its subdirectory "b" outside the mirrored place `v1./b`. */
  lemma DotEndingNameMisplaces(user: string)
    ensures Join(Join(SrcDir, "v1."), "b") == "./v1./b"
    ensures DstRoot("./v1./b", DstDir(user)) == DstDir(user) + "v1" + DstDir(user) + "b"
    ensures DstRoot("./v1./b", DstDir(user)) != DstDir(user) + "v1./b"
  {
    var dst := DstDir(user);
    DoubledPrefix(dst);
    if |dst| == 2 {
      assert dst[0] == Sep;
      assert (dst + "v1" + dst + "b")[4] != (dst + "v1./b")[4];
    } else {
      assert |dst + "v1" + dst + "b"| != |dst + "v1./b"|;
    }
  }

  lemma DoubledPrefix(dst: string)
    ensures ReplaceAll("./v1./b", SrcDir, dst) == dst + "v1" + dst + "b"
  {
    var s := "./v1./b";
    assert StartsWith(s, SrcDir) && s[2..] == "v1./b";
    InnerPrefix(dst);
    PrefixThen(s, dst, "v1" + dst + "b");
    RegroupPrefix(dst);
  }

  /** Proof helper, no counterpart in script.py: regroups the doubled prefix, kept apart for cost. */
  lemma RegroupPrefix(dst: string)
    ensures dst + ("v1" + dst + "b") == dst + "v1" + dst + "b"
  {
  }

  /** A leading `./` becomes `dst`, and the rest is rewritten on its own. */
  lemma PrefixThen(s: string, dst: string, r: string)
    requires StartsWith(s, SrcDir) && ReplaceAll(s[|SrcDir|..], SrcDir, dst) == r
    ensures ReplaceAll(s, SrcDir, dst) == dst + r
  {
    ReplaceAtFront(s, SrcDir, dst);
  }

  lemma InnerPrefix(dst: string)
    ensures ReplaceAll("v1./b", SrcDir, dst) == "v1" + dst + "b"
  {
    LastPrefix(dst);
    assert !StartsWith("v1./b", SrcDir);
    ReplaceSkipsFront("v1./b", SrcDir, dst);
    assert "v1./b"[1..] == "1./b";
    assert !StartsWith("1./b", SrcDir);
    ReplaceSkipsFront("1./b", SrcDir, dst);
    assert "1./b"[1..] == "./b";
  }

  lemma LastPrefix(dst: string)
    ensures ReplaceAll("./b", SrcDir, dst) == dst + "b"
  {
    assert StartsWith("./b", SrcDir) && "./b"[2..] == "b";
    assert ReplaceAll("b", SrcDir, dst) == "b";
    PrefixThen("./b", dst, "b");
  }
}
