/** `build_project`: the fixed shell commands, run in order until one fails. */
module Build {
  import opened Strings
  import opened Paths
  import opened Materialize

  /** `'cd ' + dir + ' && '`. */
  function InDir(dir: string): string {
    "cd " + dir + " && "
  }

  /** The instance directory and its `android` subdirectory, as `os.path.join` builds them. */
  function AppDir(user: string): string {
    Join(InstancesDir, user)
  }

  function AndroidDir(user: string): string {
    Join(AppDir(user), "android")
  }

  /** The `commands` list of `build_project`, in order. */
  function Commands(user: string): (r: seq<string>)
    ensures |r| == 5
    ensures forall k :: 0 <= k < 3 ==> StartsWith(r[k], InDir(AppDir(user)))
    ensures forall k :: 3 <= k < 5 ==> StartsWith(r[k], InDir(AndroidDir(user)))
  {
    var cd := InDir(AppDir(user));
    var cda := InDir(AndroidDir(user));
    var r := [cd + "pwd", cd + "ls -al", cd + "npm install",
              cda + "gradlew assembleRelease", cda + "ls app/build/outputs/apk/debug/"];
    assert forall k :: 0 <= k < 3 ==> r[k][..|cd|] == cd;
    assert forall k :: 3 <= k < 5 ==> r[k][..|cda|] == cda;
    r
  }

  /** The commands `os.system` is handed, and whether every one of them exited with status 0. */
  datatype Built = Built(ok: bool, issued: seq<string>)

  /** Fail-fast execution of `cmds` against the exit statuses `status`. */
  function RunCommands(cmds: seq<string>, status: string -> int): Built
    decreases |cmds|
  {
    if cmds == [] then Built(true, [])
    else if status(cmds[0]) != 0 then Built(false, [cmds[0]])
    else
      var rest := RunCommands(cmds[1..], status);
      Built(rest.ok, [cmds[0]] + rest.issued)
  }

  /** The commands are issued in list order, and every one before the last issued exited 0. */
  lemma {:induction false} IssuedPrefix(cmds: seq<string>, status: string -> int)
    ensures var b := RunCommands(cmds, status);
      |b.issued| <= |cmds| && b.issued == cmds[..|b.issued|]
      && forall k :: 0 <= k < |b.issued| - 1 ==> status(b.issued[k]) == 0
    decreases |cmds|
  {
    if cmds != [] && status(cmds[0]) == 0 {
      IssuedPrefix(cmds[1..], status);
      var rest := RunCommands(cmds[1..], status);
      assert cmds[..1 + |rest.issued|] == [cmds[0]] + cmds[1..][..|rest.issued|];
    }
  }

  /** The run succeeds exactly when every command exits 0, and then it issues them all. */
  lemma {:induction false} SucceedsIffAllZero(cmds: seq<string>, status: string -> int)
    ensures var b := RunCommands(cmds, status);
      (b.ok <==> forall k :: 0 <= k < |cmds| ==> status(cmds[k]) == 0) && (b.ok ==> b.issued == cmds)
    decreases |cmds|
  {
    if cmds != [] && status(cmds[0]) == 0 {
      SucceedsIffAllZero(cmds[1..], status);
      assert cmds == [cmds[0]] + cmds[1..];
      assert forall k :: 0 < k < |cmds| ==> cmds[k] == cmds[1..][k - 1];
    }
  }

  /** A failed run ends at the command with a non-zero status. */
  lemma {:induction false} FailsAtLast(cmds: seq<string>, status: string -> int)
    ensures var b := RunCommands(cmds, status);
      !b.ok ==> b.issued != [] && status(b.issued[|b.issued| - 1]) != 0
    decreases |cmds|
  {
    if cmds != [] && status(cmds[0]) == 0 {
      FailsAtLast(cmds[1..], status);
    }
  }

  /** `build_project`'s fail-fast loop, in one statement. */
  lemma FailFast(cmds: seq<string>, status: string -> int)
    ensures var b := RunCommands(cmds, status);
      |b.issued| <= |cmds| && b.issued == cmds[..|b.issued|]
      && (forall k :: 0 <= k < |b.issued| - 1 ==> status(b.issued[k]) == 0)
      && (b.ok <==> forall k :: 0 <= k < |cmds| ==> status(cmds[k]) == 0)
      && (b.ok ==> b.issued == cmds)
      && (!b.ok ==> b.issued != [] && status(b.issued[|b.issued| - 1]) != 0)
  {
    IssuedPrefix(cmds, status);
    SucceedsIffAllZero(cmds, status);
    FailsAtLast(cmds, status);
  }

  /** The run of `cmds` from `i` on, after the commands in `issued`. */
  function After(issued: seq<string>, cmds: seq<string>, i: nat, status: string -> int): Built
    requires i <= |cmds|
  {
    var rest := RunCommands(cmds[i..], status);
    Built(rest.ok, issued + rest.issued)
  }

  /** One turn of the loop: a zero status moves on to the next command, a non-zero one ends the run. */
  lemma RunStep(cmds: seq<string>, i: nat, issued: seq<string>, status: string -> int)
    requires i < |cmds|
    ensures status(cmds[i]) != 0 ==> After(issued, cmds, i, status) == Built(false, issued + [cmds[i]])
    ensures status(cmds[i]) == 0 ==> After(issued, cmds, i, status) == After(issued + [cmds[i]], cmds, i + 1, status)
  {
    assert cmds[i..][0] == cmds[i] && cmds[i..][1..] == cmds[i + 1..];
    var rest := RunCommands(cmds[i + 1..], status);
    assert issued + ([cmds[i]] + rest.issued) == issued + [cmds[i]] + rest.issued;
  }

  /** The loop of `build_project` over its command list: issue each command, stop at the first failure. */
  method RunInOrder(commands: seq<string>, status: string -> int) returns (ok: bool, issued: seq<string>)
    ensures Built(ok, issued) == RunCommands(commands, status)
  {
    issued := [];
    var i := 0;
    assert commands[0..] == commands;
    while i < |commands|
      invariant 0 <= i <= |commands|
      invariant RunCommands(commands, status) == After(issued, commands, i, status)
    {
      var command := commands[i];
      RunStep(commands, i, issued, status);
      issued := issued + [command];
      var result := status(command);
      if result != 0 {
        return false, issued;
      }
      i := i + 1;
    }
    assert commands[i..] == [];
    assert issued + [] == issued;
    return true, issued;
  }

  /** `build_project(app_username)`, with `os.system` given as the exit status of each command. */
  method BuildProject(user: string, status: string -> int) returns (ok: bool, issued: seq<string>)
    ensures Built(ok, issued) == RunCommands(Commands(user), status)
  {
    ok, issued := RunInOrder(Commands(user), status);
  }
}
