/**
 * The execution helpers of the shell (src/rush/util.rs): the environment map,
 * the dispatch of a parsed command, the builtins' results and the `which`
 * lookup. Everything the source asks of the operating system (chdir, getcwd,
 * read_dir, fork) is a field of `World`, an input describing what the system
 * would answer.
 */
module Util {
  import opened Wrappers
  import opened Text
  import opened Rush

  // ---------------------------------------------------------------------------
  // Outcomes

  /** Errors the Rust code returns through `anyhow::Result`; the REPL prints
      them and carries on. */
  datatype Error =
    | MissingEnvironmentVariable(name: string)
    | DirectoryChangeError(path: string)  // `chdir` failed, with the path as context
    | ChdirError                          // `chdir`'s own error, without context
    | WorkingDirectoryError
    | ForkFailure
    | CommandNotFound(command: string)

  /** Places where the Rust code calls `unwrap`/`expect`/indexes out of
      bounds instead: the whole shell process aborts. */
  datatype Panic =
    | EnvEntryWithoutEquals(entry: string)
    | PathUnset
    | DirectoryUnreadable(dir: string)
    | MissingOperand

  datatype Outcome = Done(status: Status) | Failed(error: Error) | Panicked(panic: Panic)

  /** The answers the operating system would give: the entries of each
      readable directory, the directories `chdir` can enter, whether `getcwd`
      succeeds, whether `pipe2`/`fork` succeed, and the command names
      `execvpe` can resolve to a program. */
  datatype World = World(
    directories: map<string, seq<string>>,
    enterable: set<string>,
    cwdReadable: bool,
    forkSucceeds: bool,
    executables: set<string>)

  // ---------------------------------------------------------------------------
  // obtain_env_val_map

  predicate HasEquals(entry: string) {
    '=' in entry
  }

  function EnvKey(entry: string): string
    requires HasEquals(entry)
  {
    SplitOnce(entry, '=').value.0
  }

  function EnvValue(entry: string): string
    requires HasEquals(entry)
  {
    SplitOnce(entry, '=').value.1
  }

  /** The map `obtain_env_val_map` builds from the entries, inserting them in
      order; Err names the first entry without `=`, where the Rust code
      panics on its second `unwrap`. */
  function EnvMapOf(entries: seq<string>): (r: Result<map<string, string>, string>)
    ensures r.Err? ==> r.error in entries && !HasEquals(r.error)
  {
    if entries == [] then Ok(map[])
    else
      var last := entries[|entries| - 1];
      match EnvMapOf(entries[..|entries| - 1])
      case Err(e) => Err(e)
      case Ok(m) =>
        match SplitOnce(last, '=')
        case None => Err(last)
        case Some((k, v)) => Ok(m[k := v])
  }

  /** Once a prefix has failed, the whole list fails with the same entry. */
  lemma {:induction false} EnvMapOfErrExtends(entries: seq<string>, i: nat, e: string)
    requires i <= |entries| && EnvMapOf(entries[..i]) == Err(e)
    ensures EnvMapOf(entries) == Err(e)
    decreases |entries| - i
  {
    if i < |entries| {
      var p := entries[..i + 1];
      assert p[..|p| - 1] == entries[..i];
      EnvMapOfErrExtends(entries, i + 1, e);
    } else {
      assert entries[..i] == entries;
    }
  }

  /** The `for` loop of `obtain_env_val_map` over a mutable map. */
  method ObtainEnvValMap(envVars: seq<string>) returns (r: Result<map<string, string>, string>)
    ensures r == EnvMapOf(envVars)
  {
    var envMap: map<string, string> := map[];
    for i := 0 to |envVars|
      invariant EnvMapOf(envVars[..i]) == Ok(envMap)
    {
      var envVar := envVars[i];
      assert envVars[..i + 1][..i] == envVars[..i];
      var items := SplitOnce(envVar, '=');
      if items.None? {
        EnvMapOfErrExtends(envVars, i + 1, envVar);
        return Err(envVar);
      }
      envMap := envMap[items.value.0 := items.value.1];
    }
    assert envVars[..|envVars|] == envVars;
    return Ok(envMap);
  }

  /** The map fails exactly when some entry lacks `=`, and then it reports
      the first such entry. */
  lemma {:induction false} EnvMapOfFails(entries: seq<string>)
    ensures EnvMapOf(entries).Ok? <==> forall i :: 0 <= i < |entries| ==> HasEquals(entries[i])
    ensures EnvMapOf(entries).Err? ==>
      exists i :: 0 <= i < |entries| && entries[i] == EnvMapOf(entries).error && !HasEquals(entries[i])
        && forall j :: 0 <= j < i ==> HasEquals(entries[j])
  {
    if entries != [] {
      var n := |entries| - 1;
      var init := entries[..n];
      EnvMapOfFails(init);
      assert forall i :: 0 <= i < n ==> init[i] == entries[i];
    }
  }

  /** The map's keys are exactly the keys of the entries (the text before
      each entry's first `=`). */
  lemma {:induction false} EnvMapOfKeys(entries: seq<string>)
    requires EnvMapOf(entries).Ok?
    ensures forall i :: 0 <= i < |entries| ==> HasEquals(entries[i])
    ensures forall k :: k in EnvMapOf(entries).value <==>
      exists i :: 0 <= i < |entries| && EnvKey(entries[i]) == k
  {
    EnvMapOfFails(entries);
    if entries != [] {
      var n := |entries| - 1;
      var init := entries[..n];
      assert EnvMapOf(init).Ok?;
      EnvMapOfKeys(init);
      assert forall i :: 0 <= i < n ==> init[i] == entries[i];
      forall k ensures k in EnvMapOf(entries).value <==>
        exists i :: 0 <= i < |entries| && EnvKey(entries[i]) == k
      {
        if k in EnvMapOf(init).value {
          var i :| 0 <= i < n && EnvKey(init[i]) == k;
          assert EnvKey(entries[i]) == k;
        }
        if exists i :: 0 <= i < |entries| && EnvKey(entries[i]) == k {
          var i :| 0 <= i < |entries| && EnvKey(entries[i]) == k;
          if i < n { assert EnvKey(init[i]) == k; }
        }
      }
    }
  }

  /** Last occurrence wins: an entry whose key no later entry repeats
      supplies that key's value, everything after its first `=`. */
  lemma {:induction false} EnvMapOfLastWins(entries: seq<string>, i: nat)
    requires EnvMapOf(entries).Ok?
    requires i < |entries|
    ensures forall j :: 0 <= j < |entries| ==> HasEquals(entries[j])
    ensures (forall j :: i < j < |entries| ==> EnvKey(entries[j]) != EnvKey(entries[i])) ==>
      EnvKey(entries[i]) in EnvMapOf(entries).value
        && EnvMapOf(entries).value[EnvKey(entries[i])] == EnvValue(entries[i])
  {
    EnvMapOfFails(entries);
    var n := |entries| - 1;
    var init := entries[..n];
    assert entries == init + [entries[n]];
    EnvMapOfPush(init, entries[n]);
    if i < n {
      assert init[i] == entries[i];
      assert EnvMapOf(init).Ok?;
      assert EnvMapOf(entries).value == EnvMapOf(init).value[EnvKey(entries[n]) := EnvValue(entries[n])];
      EnvMapOfLastWins(init, i);
      if forall j :: i < j < |entries| ==> EnvKey(entries[j]) != EnvKey(entries[i]) {
        assert EnvKey(entries[n]) != EnvKey(entries[i]);
        assert forall j :: i < j < n ==> init[j] == entries[j];
      }
    }
  }

  /** The environment of the `correct_cd` test: HOME and PATH are both
      present with their values. */
  lemma EnvMapOfExample()
    ensures EnvMapOf(["PATH=/bin:/usr/bin", "HOME=/home/woody"])
         == Ok(map["PATH" := "/bin:/usr/bin", "HOME" := "/home/woody"])
  {
    var path, home := "PATH=/bin:/usr/bin", "HOME=/home/woody";
    ExamplePathSplits();
    ExampleHomeSplits();
    EnvMapOfPush([], path);
    EnvMapOfPush([path], home);
    assert [path] + [home] == [path, home];
  }

  /** The entries of the `correct_cd` test split at their `=`. */
  lemma ExamplePathSplits()
    ensures SplitOnce("PATH=/bin:/usr/bin", '=') == Some(("PATH", "/bin:/usr/bin"))
  {
    assert "PATH=/bin:/usr/bin" == "PATH" + ['='] + "/bin:/usr/bin";
    SplitOnceJoin("PATH", '=', "/bin:/usr/bin");
  }

  lemma ExampleHomeSplits()
    ensures SplitOnce("HOME=/home/woody", '=') == Some(("HOME", "/home/woody"))
  {
    assert "HOME=/home/woody" == "HOME" + ['='] + "/home/woody";
    SplitOnceJoin("HOME", '=', "/home/woody");
  }

  lemma ExampleAomeSplits()
    ensures SplitOnce("aOME=/home/woody", '=') == Some(("aOME", "/home/woody"))
  {
    assert "aOME=/home/woody" == "aOME" + ['='] + "/home/woody";
    SplitOnceJoin("aOME", '=', "/home/woody");
  }

  /** One step of `EnvMapOf`: appending an entry. */
  lemma EnvMapOfPush(entries: seq<string>, entry: string)
    ensures EnvMapOf(entries + [entry]) ==
      match EnvMapOf(entries)
      case Err(e) => Err(e)
      case Ok(m) =>
        match SplitOnce(entry, '=')
        case None => Err(entry)
        case Some((k, v)) => Ok(m[k := v])
  {
    assert (entries + [entry])[..|entries|] == entries;
  }

  // ---------------------------------------------------------------------------
  // Dispatch in execute

  datatype Builtin = CdCommand | HelpCommand | ExitCommand | PwdCommand | WhichCommand

  /** The builtin table, matched exactly on the command name. */
  function BuiltinOf(name: string): Option<Builtin> {
    match name
    case "cd" => Some(CdCommand)
    case "help" => Some(HelpCommand)
    case "exit" => Some(ExitCommand)
    case "pwd" => Some(PwdCommand)
    case "which" => Some(WhichCommand)
    case _ => None
  }

  function BuiltinName(b: Builtin): string {
    match b
    case CdCommand => "cd"
    case HelpCommand => "help"
    case ExitCommand => "exit"
    case PwdCommand => "pwd"
    case WhichCommand => "which"
  }

  /** What `execute` does with a parsed command, instead of doing it. */
  datatype Action =
    | RunBuiltin(builtin: Builtin)
    | Launch
    | RunPipeline(upstream: CommandConfig, downstream: seq<string>)
    | Skip

  /** The branches of `execute`: a PIPE successor runs the command without its
      successor upstream of the remaining tokens; any other successor does
      nothing at all; a lone command goes to its builtin or to the launcher. */
  function Dispatch(config: CommandConfig): (a: Action)
    ensures a.Skip? <==>
      config.successiveCommand.Some? && config.successiveCommand.value.controlflow != Pipe
    ensures a.RunBuiltin? ==>
      config.successiveCommand.None? && config.command == BuiltinName(a.builtin)
    ensures a.RunPipeline? ==> a.upstream.successiveCommand.None? && a.upstream.argv == config.argv
  {
    match config.successiveCommand
    case Some(succ) =>
      if succ.controlflow == Pipe then
        RunPipeline(config.(successiveCommand := None), succ.commands)
      else Skip
    case None =>
      match BuiltinOf(config.command)
      case Some(b) => RunBuiltin(b)
      case None => Launch
  }

  /** The dispatch rule stated for every command: a lone command reaches the
      builtin whose name it is and the launcher exactly when it names none;
      a non-PIPE successor skips everything, the first segment included; a
      PIPE successor keeps the first segment's command and argv upstream. */
  lemma DispatchRule(config: CommandConfig)
    ensures config.successiveCommand.None? ==>
      (forall b :: Dispatch(config) == RunBuiltin(b) <==> config.command == BuiltinName(b))
      && (Dispatch(config) == Launch <==> config.command !in {"cd", "help", "exit", "pwd", "which"})
    ensures config.successiveCommand.Some? && config.successiveCommand.value.controlflow != Pipe ==>
      Dispatch(config) == Skip
    ensures config.successiveCommand.Some? && config.successiveCommand.value.controlflow == Pipe ==>
      Dispatch(config) == RunPipeline(
        CommandConfig(config.command, config.argv, None),
        config.successiveCommand.value.commands)
  {
  }

  // ---------------------------------------------------------------------------
  // Builtins

  /** Where `rsh_cd` goes: the first argument after the command, else HOME. */
  function CdDestination(args: seq<string>, envMap: map<string, string>): (r: Result<string, Error>)
    ensures r.Ok? && |args| > 1 ==> r.value == args[1]
    ensures r.Ok? && |args| <= 1 ==> "HOME" in envMap && r.value == envMap["HOME"]
    ensures r.Err? ==> r.error == MissingEnvironmentVariable("HOME") && "HOME" !in envMap
  {
    if |args| > 1 then Ok(args[1])
    else if "HOME" in envMap then Ok(envMap["HOME"])
    else Err(MissingEnvironmentVariable("HOME"))
  }

  /** `rsh_cd`: Success when the chosen destination can be entered. A failed
      `chdir` to an explicit argument is reported with that path; a failed
      `chdir` to HOME passes on `chdir`'s own error, without the path. */
  function RshCd(args: seq<string>, envMap: map<string, string>, world: World): (r: Outcome)
    ensures r.Done? ==> r.status == Success
    ensures !r.Panicked?
  {
    match CdDestination(args, envMap)
    case Err(e) => Failed(e)
    case Ok(d) =>
      if d in world.enterable then Done(Success)
      else if |args| > 1 then Failed(DirectoryChangeError(d))
      else Failed(ChdirError)
  }

  /** The destination rule in full: an explicit argument wins over HOME, HOME
      is used only without one, and without either cd fails naming HOME. */
  lemma CdRule(args: seq<string>, envMap: map<string, string>, world: World)
    ensures |args| > 1 ==> CdDestination(args, envMap) == Ok(args[1])
    ensures |args| <= 1 && "HOME" in envMap ==> CdDestination(args, envMap) == Ok(envMap["HOME"])
    ensures CdDestination(args, envMap).Err? <==> |args| <= 1 && "HOME" !in envMap
    ensures RshCd(args, envMap, world) == Done(Success) <==>
      CdDestination(args, envMap).Ok? && CdDestination(args, envMap).value in world.enterable
    ensures |args| > 1 && args[1] !in world.enterable ==>
      RshCd(args, envMap, world) == Failed(DirectoryChangeError(args[1]))
    ensures |args| <= 1 && "HOME" in envMap && envMap["HOME"] !in world.enterable ==>
      RshCd(args, envMap, world) == Failed(ChdirError)
  {
  }

  /** The `correct_cd` test: without arguments, cd goes to HOME. */
  lemma CdHomeExample()
    ensures EnvMapOf(["PATH=/bin:/usr/bin", "HOME=/home/woody"]).Ok?
    ensures CdDestination([], EnvMapOf(["PATH=/bin:/usr/bin", "HOME=/home/woody"]).value)
         == Ok("/home/woody")
  {
    EnvMapOfExample();
  }

  /** The `panic_cd` test: with only PATH and a misspelt `aOME` in the
      environment, cd without arguments fails naming HOME. */
  lemma CdNoHomeExample()
    ensures EnvMapOf(["PATH=/bin:/usr/bin", "aOME=/home/woody"]).Ok?
    ensures CdDestination([], EnvMapOf(["PATH=/bin:/usr/bin", "aOME=/home/woody"]).value)
         == Err(MissingEnvironmentVariable("HOME"))
  {
    EnvMapOfMisspeltExample();
    var m := map["PATH" := "/bin:/usr/bin", "aOME" := "/home/woody"];
    assert "HOME" !in m by {
      assert m.Keys == {"PATH", "aOME"};
      assert "HOME"[0] != "aOME"[0] && "HOME"[0] != "PATH"[0];
    }
  }

  lemma EnvMapOfMisspeltExample()
    ensures EnvMapOf(["PATH=/bin:/usr/bin", "aOME=/home/woody"])
         == Ok(map["PATH" := "/bin:/usr/bin", "aOME" := "/home/woody"])
  {
    var path, aome := "PATH=/bin:/usr/bin", "aOME=/home/woody";
    ExamplePathSplits();
    ExampleAomeSplits();
    EnvMapOfPush([], path);
    EnvMapOfPush([path], aome);
    assert [path] + [aome] == [path, aome];
  }

  /** `rsh_help`: prints its two lines (not modelled) and succeeds. */
  function RshHelp(args: seq<string>): (r: Outcome)
    ensures r == Done(Success)
  {
    Done(Success)
  }

  /** `rsh_exit`: asks the REPL to stop, with no other effect. */
  function RshExit(args: seq<string>): (r: Outcome)
    ensures r == Done(Exit)
  {
    Done(Exit)
  }

  /** `rsh_pwd`: fails only when the working directory cannot be read. */
  function RshPwd(args: seq<string>, world: World): (r: Outcome)
    ensures r == Done(Success) <==> world.cwdReadable
    ensures r != Done(Success) ==> r == Failed(WorkingDirectoryError)
  {
    if world.cwdReadable then Done(Success) else Failed(WorkingDirectoryError)
  }

  // ---------------------------------------------------------------------------
  // find_files_in and rsh_which

  /** `Path::new(dir).join(name)` for a plain file name. */
  function JoinPath(dir: string, name: string): string {
    if dir == [] || dir[|dir| - 1] == '/' then dir + name else dir + "/" + name
  }

  /** Inserting the entries of one directory, in listing order. */
  function AddEntries(found: map<string, string>, dir: string, names: seq<string>): (r: map<string, string>)
    ensures forall x :: x in r <==> x in found || x in names
    ensures forall x :: x in names ==> r[x] == JoinPath(dir, x)
    ensures forall x :: x in found && x !in names ==> r[x] == found[x]
  {
    if names == [] then found
    else
      var n := |names| - 1;
      assert forall x :: x in names <==> x in names[..n] || x == names[n];
      AddEntries(found, dir, names[..n])[names[n] := JoinPath(dir, names[n])]
  }

  /** `find_files_in`: every directory of the list in order, a later
      directory's entry replacing an earlier one of the same name; Err names
      the first directory that cannot be listed, where the source panics. */
  function FilesIn(paths: seq<string>, directories: map<string, seq<string>>): (r: Result<map<string, string>, string>)
    ensures r.Err? ==> r.error in paths && r.error !in directories
  {
    if paths == [] then Ok(map[])
    else
      var n := |paths| - 1;
      match FilesIn(paths[..n], directories)
      case Err(d) => Err(d)
      case Ok(found) =>
        if paths[n] in directories then Ok(AddEntries(found, paths[n], directories[paths[n]]))
        else Err(paths[n])
  }

  lemma {:induction false} FilesInErrExtends(paths: seq<string>, directories: map<string, seq<string>>, i: nat, d: string)
    requires i <= |paths| && FilesIn(paths[..i], directories) == Err(d)
    ensures FilesIn(paths, directories) == Err(d)
    decreases |paths| - i
  {
    if i < |paths| {
      var p := paths[..i + 1];
      assert p[..|p| - 1] == paths[..i];
      FilesInErrExtends(paths, directories, i + 1, d);
    } else {
      assert paths[..i] == paths;
    }
  }

  /** The inner loop of `find_files_in`: one directory's entries, each
      inserted under its file name with its full path. */
  method AddDirectory(found: map<string, string>, dir: string, names: seq<string>)
    returns (r: map<string, string>)
    ensures r == AddEntries(found, dir, names)
  {
    r := found;
    for j := 0 to |names|
      invariant r == AddEntries(found, dir, names[..j])
    {
      assert names[..j + 1][..j] == names[..j];
      r := r[names[j] := JoinPath(dir, names[j])];
    }
    assert names[..|names|] == names;
  }

  /** The nested `for` loops of `find_files_in` inserting into a mutable map. */
  method FindFilesIn(paths: seq<string>, directories: map<string, seq<string>>)
    returns (r: Result<map<string, string>, string>)
    ensures r == FilesIn(paths, directories)
  {
    var foundFiles: map<string, string> := map[];
    for i := 0 to |paths|
      invariant FilesIn(paths[..i], directories) == Ok(foundFiles)
    {
      var path := paths[i];
      assert paths[..i + 1][..i] == paths[..i];
      if path !in directories {
        FilesInErrExtends(paths, directories, i + 1, path);
        return Err(path);
      }
      foundFiles := AddDirectory(foundFiles, path, directories[path]);
    }
    assert paths[..|paths|] == paths;
    return Ok(foundFiles);
  }

  /** Listing succeeds exactly when every directory is readable, and
      otherwise it stops at the first unreadable one. */
  lemma {:induction false} FilesInFails(paths: seq<string>, directories: map<string, seq<string>>)
    ensures FilesIn(paths, directories).Ok? <==> forall i :: 0 <= i < |paths| ==> paths[i] in directories
    ensures FilesIn(paths, directories).Err? ==>
      exists i :: 0 <= i < |paths| && paths[i] == FilesIn(paths, directories).error && paths[i] !in directories
        && forall j :: 0 <= j < i ==> paths[j] in directories
  {
    if paths != [] {
      var n := |paths| - 1;
      FilesInFails(paths[..n], directories);
      assert forall i :: 0 <= i < n ==> paths[..n][i] == paths[i];
    }
  }

  /** A name is found exactly when some directory of the list has it. */
  lemma {:induction false} FilesInFinds(paths: seq<string>, directories: map<string, seq<string>>, name: string)
    requires FilesIn(paths, directories).Ok?
    ensures forall i :: 0 <= i < |paths| ==> paths[i] in directories
    ensures name in FilesIn(paths, directories).value <==>
      exists i :: 0 <= i < |paths| && name in directories[paths[i]]
  {
    FilesInFails(paths, directories);
    if paths != [] {
      var n := |paths| - 1;
      var init := paths[..n];
      assert FilesIn(init, directories).Ok?;
      FilesInFinds(init, directories, name);
      if exists i :: 0 <= i < |paths| && name in directories[paths[i]] {
        var i :| 0 <= i < |paths| && name in directories[paths[i]];
        if i < n { assert init[i] == paths[i]; }
      }
      if exists i :: 0 <= i < n && name in directories[init[i]] {
        var i :| 0 <= i < n && name in directories[init[i]];
        assert init[i] == paths[i];
      }
    }
  }

  /** Later directories win: a name resolves into the last directory of the
      list that has it. */
  lemma {:induction false} FilesInLastWins(paths: seq<string>, directories: map<string, seq<string>>, name: string, i: nat)
    requires FilesIn(paths, directories).Ok?
    requires i < |paths|
    ensures forall j :: 0 <= j < |paths| ==> paths[j] in directories
    ensures name in directories[paths[i]] && (forall j :: i < j < |paths| ==> name !in directories[paths[j]]) ==>
      name in FilesIn(paths, directories).value && FilesIn(paths, directories).value[name] == JoinPath(paths[i], name)
    decreases |paths|
  {
    FilesInFails(paths, directories);
    var n := |paths| - 1;
    var init := paths[..n];
    assert FilesIn(init, directories).Ok?;
    if i < n && name in directories[paths[i]] && (forall j :: i < j < |paths| ==> name !in directories[paths[j]]) {
      assert init[i] == paths[i];
      assert name !in directories[paths[n]];
      assert forall j :: i < j < n ==> init[j] == paths[j];
      FilesInLastWins(init, directories, name, i);
    }
  }

  /** What `rsh_which` prints. */
  datatype WhichReport = Found(path: string) | NotFound(name: string)

  /** `rsh_which`: split PATH on `:`, collect the files of its directories and
      look up the first argument. It panics when PATH is unset, when a
      directory cannot be listed, and when no argument was given. */
  function Which(argv: seq<string>, envMap: map<string, string>, world: World): (r: Result<WhichReport, Panic>)
    ensures r.Ok? ==> "PATH" in envMap && |argv| >= 2
    ensures r.Ok? && r.value.NotFound? ==> r.value.name == argv[1]
    ensures r == Err(PathUnset) <==> "PATH" !in envMap
    ensures r == Err(MissingOperand) ==> |argv| < 2
  {
    if "PATH" !in envMap then Err(PathUnset)
    else
      match FilesIn(Split(envMap["PATH"], ':'), world.directories)
      case Err(d) => Err(DirectoryUnreadable(d))
      case Ok(found) =>
        if |argv| < 2 then Err(MissingOperand)
        else if argv[1] in found then Ok(Found(found[argv[1]]))
        else Ok(NotFound(argv[1]))
  }

  /** `which` over `PATH=d0:d1:…`: the name resolves into the last directory
      that lists it, and is reported not found when none does. */
  lemma WhichResolvesLast(argv: seq<string>, envMap: map<string, string>, world: World, dirs: seq<string>)
    requires |argv| >= 2
    requires |dirs| >= 1 && forall i :: 0 <= i < |dirs| ==> ':' !in dirs[i]
    requires "PATH" in envMap && envMap["PATH"] == Join(dirs, ':')
    requires forall i :: 0 <= i < |dirs| ==> dirs[i] in world.directories
    ensures Which(argv, envMap, world).Ok?
    ensures Which(argv, envMap, world) == Ok(NotFound(argv[1])) <==>
      forall i :: 0 <= i < |dirs| ==> argv[1] !in world.directories[dirs[i]]
    ensures forall i ::
      (0 <= i < |dirs| && argv[1] in world.directories[dirs[i]]
        && forall j :: i < j < |dirs| ==> argv[1] !in world.directories[dirs[j]]) ==>
      Which(argv, envMap, world) == Ok(Found(JoinPath(dirs[i], argv[1])))
  {
    SplitJoin(dirs, ':');
    FilesInFails(dirs, world.directories);
    FilesInFinds(dirs, world.directories, argv[1]);
    forall i | 0 <= i < |dirs| && argv[1] in world.directories[dirs[i]]
        && (forall j :: i < j < |dirs| ==> argv[1] !in world.directories[dirs[j]])
      ensures Which(argv, envMap, world) == Ok(Found(JoinPath(dirs[i], argv[1])))
    {
      FilesInLastWins(dirs, world.directories, argv[1], i);
    }
  }

  /** `rsh_which` as a builtin: whenever it returns, it returns Success. */
  function RshWhich(argv: seq<string>, envMap: map<string, string>, world: World): (r: Outcome)
    ensures r == Done(Success) <==> Which(argv, envMap, world).Ok?
    ensures r != Done(Success) ==> r == Panicked(Which(argv, envMap, world).error)
  {
    match Which(argv, envMap, world)
    case Ok(_) => Done(Success)
    case Err(p) => Panicked(p)
  }

  // ---------------------------------------------------------------------------
  // execute

  function RunBuiltinOutcome(b: Builtin, argv: seq<string>, envMap: map<string, string>, world: World): Outcome {
    match b
    case CdCommand => RshCd(argv, envMap, world)
    case HelpCommand => RshHelp(argv)
    case ExitCommand => RshExit(argv)
    case PwdCommand => RshPwd(argv, world)
    case WhichCommand => RshWhich(argv, envMap, world)
  }

  /** `exit` is the one builtin that asks the REPL to stop; `help` always
      succeeds, `cd` and `pwd` at most fail, `which` at most panics. */
  lemma BuiltinResults(b: Builtin, argv: seq<string>, envMap: map<string, string>, world: World)
    ensures RunBuiltinOutcome(b, argv, envMap, world) == Done(Exit) <==> b == ExitCommand
    ensures b == HelpCommand ==> RunBuiltinOutcome(b, argv, envMap, world) == Done(Success)
    ensures b in {CdCommand, PwdCommand} ==> !RunBuiltinOutcome(b, argv, envMap, world).Panicked?
    ensures b == WhichCommand ==> !RunBuiltinOutcome(b, argv, envMap, world).Failed?
  {
  }

  /** `rsh_launch` in the parent: it waits until the child has exited or
      been killed and reports Success; only a failed `fork` is an error. */
  function RshLaunchParent(world: World): (r: Outcome)
    ensures r == Done(Success) <==> world.forkSucceeds
    ensures r != Done(Success) ==> r == Failed(ForkFailure)
  {
    if world.forkSucceeds then Done(Success) else Failed(ForkFailure)
  }

  /** `rsh_launch` in the child: None when `execvpe` replaces the process
      with the program (the call never returns); otherwise the `?` after
      `execvpe` returns the command-not-found error from `rsh_launch`, and
      `execute` hands it on unchanged after printing it. */
  function RshLaunchChild(config: CommandConfig, world: World): (r: Option<Outcome>)
    ensures r.None? <==> config.command in world.executables
    ensures r.Some? ==> r.value == Failed(CommandNotFound(config.command))
  {
    if config.command in world.executables then None
    else Some(Failed(CommandNotFound(config.command)))
  }

  /** The result `execute` hands back to the REPL. The environment map is
      built first, so a malformed entry aborts even a skipped command. The
      launcher and the pipeline coordinator report Success once their
      children have terminated, and fail only when a process cannot be
      created. */
  function Execute(config: CommandConfig, envVars: seq<string>, world: World): (r: Outcome)
    ensures EnvMapOf(envVars).Err? ==> r == Panicked(EnvEntryWithoutEquals(EnvMapOf(envVars).error))
    ensures r.Panicked? && EnvMapOf(envVars).Ok? ==>
      config.successiveCommand.None? && config.command == "which"
  {
    match EnvMapOf(envVars)
    case Err(e) => Panicked(EnvEntryWithoutEquals(e))
    case Ok(envMap) =>
      match Dispatch(config)
      case Skip => Done(Success)
      case Launch => RshLaunchParent(world)
      case RunPipeline(_, _) => if world.forkSucceeds then Done(Success) else Failed(ForkFailure)
      case RunBuiltin(b) => RunBuiltinOutcome(b, config.argv, envMap, world)
  }

  /** Only the `exit` builtin, run as a lone command, makes `execute`
      return Exit. */
  lemma ExecuteExit(config: CommandConfig, envVars: seq<string>, world: World)
    ensures Execute(config, envVars, world) == Done(Exit) <==>
      EnvMapOf(envVars).Ok? && config.successiveCommand.None? && config.command == "exit"
  {
    DispatchRule(config);
    if EnvMapOf(envVars).Ok? && Dispatch(config).RunBuiltin? {
      var b := Dispatch(config).builtin;
      assert config.command == BuiltinName(b);
    }
  }

  /** With a well-formed environment, a command followed by `||`, `&&`, `&`
      or `;` runs nothing and reports Success. */
  lemma ExecuteSkipsNonPipe(config: CommandConfig, envVars: seq<string>, world: World)
    requires EnvMapOf(envVars).Ok?
    requires config.successiveCommand.Some? && config.successiveCommand.value.controlflow != Pipe
    ensures Execute(config, envVars, world) == Done(Success)
  {
  }
}
