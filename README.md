# rush — a Dafny model of the shell's parser, builtins and REPL decision

`rush` is a small interactive shell written in Rust. It reads a line, splits it
into ASCII-whitespace tokens, folds the tokens into a command chain, runs
builtins (`cd`, `help`, `exit`, `pwd`, `which`) in-process and launches
everything else as a child process. This project models the parts of it that
are deterministic and independent of the operating system, and proves what
they promise:

- `text.dfy` (module `Text`): the Rust standard-library splitting the shell
  relies on. `split_ascii_whitespace` is `Tokenize`, `split(":")` is `Split`
  and `splitn(2, "=")` is `SplitOnce`. Each has its inverse and round-trip
  lemmas.
- `rush.dfy` (module `Rush`): the `ControlFlow`, `SuccessiveCommand`,
  `CommandConfig` and `Status` types of src/rush.rs, and `split_out_command`.
  The method `SplitOutCommand` has the source's `while let` / `argv.push`
  loop. The function `Parse` specifies it. `Unparse` gives back the token
  stream a chain was read from, and the two are proved inverse on well-formed
  chains. The iterator that the Rust code keeps for the successive command is
  the sequence of tokens it still had to yield.
- `util.dfy` (module `Util`): src/rush/util.rs.
  - `ObtainEnvValMap` is a loop over the entries that inserts into a map.
  - `Dispatch` is the branch structure of `execute`. It returns an `Action`
    instead of performing it.
  - `CdDestination` and `RshCd` choose where `cd` goes. `RshHelp`, `RshExit`
    and `RshPwd` give the other builtins' results.
  - `FindFilesIn` (with `AddDirectory`) and `Which` are `find_files_in` and
    `rsh_which`.
  - `RshLaunchParent` and `RshLaunchChild` are the two sides of
    `rsh_launch` after the fork.
  - `Execute` is the outcome `execute` hands to the REPL.
  - Whatever the operating system would answer is a field of `World`: the
    entries of each readable directory, the directories `chdir` can enter,
    whether `getcwd` succeeds, whether processes can be created, and which
    command names `execvpe` can run.
- `repl.dfy` (module `Repl`): the continue/stop decision of `main_loop` and
  the loop itself (`MainLoop`), over a finite sequence of input lines.
- `lib.dfy` (module `RshLoop`): the older `rsh_split_line` and `rsh_execute`
  of src/lib.rs.
- `wrappers.dfy` (module `Wrappers`): `Option` and `Result`.

Outcomes distinguish three cases:

- a value returned in `Ok` (`Done`);
- an error returned in `Err` (`Failed`), which the REPL prints before it
  carries on;
- a `panic` from an `unwrap`, an `expect` or an out-of-bounds index
  (`Panicked`), which aborts the whole shell.

The model follows the code, including where a reader might expect otherwise:

- `obtain_env_val_map` accepts an entry with an empty key (`=x` gives key
  `""`). An entry without `=` makes it panic; it does not return a parse
  error.
- `rsh_which` panics when `PATH` is unset, when a `PATH` directory cannot be
  listed, and when it is given no argument. It returns no errors.
- A successor linked by `||`, `&&`, `&` or `;` makes `execute` return
  Success without running anything, not even the first command.
- The first token is never tested against the operator set, so `| ls` is
  the command `|` with argument `ls`.
- At end of input `main_loop` does not stop (see Findings).
- `cd` to an argument that cannot be entered reports the path, but `cd` to a
  HOME that cannot be entered passes on `chdir`'s bare error (`ChdirError`).

## Model

| member | source | states |
|---|---|---|
| Text.Tokenize | src/rush.rs:22 | every token `split_ascii_whitespace` yields is non-empty and free of ASCII whitespace (space, tab, LF, FF, CR) |
| Text.TokenizeEmpty | src/rush.rs:22 | a line yields no token exactly when it is empty or whitespace only |
| Text.TokenizeKeepsText | src/rush.rs:22 | the tokens laid end to end are exactly the line's non-whitespace characters in order |
| Text.TokenizeJoinWords | src/rush.rs:22 | tokenizing well-formed tokens joined by single spaces and followed by any whitespace gives back exactly those tokens |
| Text.TokenizeAppend | src/rush.rs:22 | cutting a line just before a whitespace character cuts its tokens in two: no token spans the cut |
| Text.Split | src/rush/util.rs:177 | `split(":")` yields at least one piece and no piece contains the separator |
| Text.JoinSplit | src/rush/util.rs:172-178 | joining the pieces of `split` with the separator gives the original string |
| Text.SplitJoin | src/rush/util.rs:172-178 | separator-free pieces are recovered by splitting their join |
| Text.SplitOnce | src/rush/util.rs:5-13 | `splitn(2, "=")` fails exactly when there is no `=`; otherwise the key has no `=` and key + `=` + value is the entry |
| Text.SplitOnceJoin | src/rush/util.rs:8-13 | the split is at the first `=`: a `=`-free key followed by `=` and any value (which may hold `=`) splits into that key and value |
| Rush.ControlFlowOfOperator | src/rush.rs:65-73 | the tag mapping is defined exactly on the operator set and maps the pipe, double bar, `&&`, `&` and `;` to PIPE, OR, AND, SIMUL, BOTH and back |
| Rush.Parse | src/rush.rs:60-93 | there is no command exactly when the token stream is empty; otherwise the first token is the command and argv[0], and without a successor argv is the whole stream |
| Rush.FirstOperatorIs | src/rush.rs:64-65 | the index where argv stops is the first operator after position 0 (or the end) |
| Rush.SplitOutCommand | src/rush.rs:60-93 | the `while let` loop pushing onto argv returns exactly `Parse(tokens)` |
| Rush.ParseSound | src/rush.rs:60-89 | a built command has the first token as command and argv[0], no operator in argv after position 0, and accounts for every token in order, the operator included |
| Rush.ParseUnparse | src/rush.rs:60-89 | every well-formed chain is what parsing its own token stream gives, so parsing is inverse to `Unparse` |
| Rush.ParseNoOperator | src/rush.rs:83-89 | with no later operator, argv is the whole stream and there is no successive command |
| Rush.ParseAtOperator | src/rush.rs:64-81 | at the first later operator, argv is the tokens before it, the operator is tagged and not pushed, and the successor holds every later token unparsed |
| Rush.BlankLineParsesToNothing | src/rush.rs:22-23 | an empty or whitespace-only line parses to no command |
| Rush.ParseExamplesPlain | src/rush.rs:105-131 | the tokens of the test lines `ls some_file` and `cat some_file > out.txt` give single commands, with `>` an ordinary argument |
| Rush.TrailingOrLine | src/rush.rs:120 | the test line `cat some_file`, double bar, four spaces, tokenizes to the two words and the double bar: trailing spaces yield no token |
| Rush.ParseExamplesSuccessor | src/rush.rs:109-128 | `cat some_file`, pipe, `less` gives a PIPE over `less`; a trailing double bar gives an OR over an empty stream |
| Rush.ParseExamplesChain | src/rush.rs:133-142 | in `cat some_file > out.txt && ls`, double bar, `cat out.txt` only `&&` is parsed and the double bar stays in the successor's stream |
| Rush.ParseExamplesSimulBoth | src/rush.rs:143-162 | with `&` or `;` in place of `&&`, the successor is tagged SIMUL or BOTH and holds the same stream `ls`, double bar, `cat out.txt` |
| Util.EnvMapOf | src/rush/util.rs:2-17 | a failure names an entry of the list that has no `=` |
| Util.ObtainEnvValMap | src/rush/util.rs:2-17 | the `for` loop inserting each entry's key and value returns exactly `EnvMapOf(entries)` |
| Util.EnvMapOfErrExtends | src/rush/util.rs:4-15 | the loop stops at the first entry without `=` whatever follows it |
| Util.EnvMapOfFails | src/rush/util.rs:12-13 | building fails exactly when some entry lacks `=`, and reports the first such entry |
| Util.EnvMapOfKeys | src/rush/util.rs:4-16 | the map's keys are exactly the keys of the entries |
| Util.EnvMapOfLastWins | src/rush/util.rs:9-14 | an entry whose key no later entry repeats supplies that key's value, everything after its first `=` |
| Util.EnvMapOfExample | src/rush.rs:184-187 | the test environment maps PATH to `/bin:/usr/bin` and HOME to `/home/woody` and nothing else |
| Util.Dispatch | src/rush/util.rs:24-92 | everything is skipped exactly when there is a non-PIPE successor; a builtin runs only for a lone command carrying its name; a pipeline's upstream segment is the first command's argv with no successor |
| Util.DispatchRule | src/rush/util.rs:24-92 | a lone command goes to the builtin of that name or, failing all five names, to the launcher; a non-PIPE successor skips everything; a PIPE successor runs the first segment upstream of the remaining tokens |
| Util.CdDestination | src/rush/util.rs:139-150 | the destination is args[1] when there is one, else HOME's value; the only error is the missing HOME, when HOME is absent from the map |
| Util.CdRule | src/rush/util.rs:139-152 | cd targets args[1] when there is one, else HOME; it errs naming HOME exactly when both are missing, and succeeds exactly when the target can be entered; a failed chdir to args[1] reports that path, a failed chdir to HOME passes on chdir's bare error |
| Util.RshCd | src/rush/util.rs:135-153 | cd never panics and, when it returns Ok, returns Success |
| Util.CdHomeExample | src/rush.rs:182-189 | with the test environment, cd without arguments goes to `/home/woody` |
| Util.CdNoHomeExample | src/rush.rs:191-202 | with `aOME` in place of HOME, cd without arguments fails naming HOME |
| Util.RshHelp | src/rush/util.rs:155-160 | help always returns Success |
| Util.RshExit | src/rush/util.rs:162-164 | exit always returns Exit |
| Util.RshPwd | src/rush/util.rs:166-169 | pwd returns Success exactly when the working directory can be read, and the working-directory error otherwise |
| Util.BuiltinResults | src/rush/util.rs:155-169 | exit is the only builtin that returns Exit; help always succeeds; cd and pwd never panic; which never returns an error |
| Util.AddEntries | src/rush/util.rs:190-197 | after one directory, every entry's name maps to that directory joined with the name, and other names keep their old value |
| Util.AddDirectory | src/rush/util.rs:190-197 | the inner `for` loop computes exactly `AddEntries` |
| Util.FilesIn | src/rush/util.rs:187-200 | a failure names a directory of the list that cannot be read |
| Util.FindFilesIn | src/rush/util.rs:187-200 | the nested loops compute exactly `FilesIn(paths, directories)` |
| Util.FilesInErrExtends | src/rush/util.rs:189-190 | listing stops at the first unreadable directory whatever follows it |
| Util.FilesInFails | src/rush/util.rs:189-190 | listing succeeds exactly when every directory is readable, and otherwise names the first unreadable directory of the list, where `read_dir(...).expect` panics |
| Util.FilesInFinds | src/rush/util.rs:189-197 | a name is found exactly when some directory of the list has it |
| Util.FilesInLastWins | src/rush/util.rs:187-199 | a later directory's entry overwrites an earlier one: a name resolves into the last directory that has it |
| Util.Which | src/rush/util.rs:171-185 | the lookup panics with PathUnset exactly when PATH is unset; a missing operand panics; a report needs PATH and an operand, and not found names the operand |
| Util.WhichResolvesLast | src/rush/util.rs:171-184 | for `PATH=d0:d1:…` with readable directories, `which name` reports the path in the last directory listing the name, and not found exactly when none does |
| Util.RshWhich | src/rush/util.rs:171-185 | which returns Success whenever it does not panic, and panics with the lookup's reason otherwise |
| Util.RshLaunchParent | src/rush/util.rs:104-133 | the parent returns Success exactly when the fork succeeds, and the fork error otherwise |
| Util.RshLaunchChild | src/rush/util.rs:117-130 | the child's `rsh_launch` never returns when `execvpe` can run the command, and returns the command-not-found error naming the command otherwise |
| Util.Execute | src/rush/util.rs:19-101 | a malformed environment entry panics before anything runs, naming that entry; with a well-formed environment only a lone `which` can panic |
| Util.ExecuteExit | src/rush/util.rs:19-101 | execute returns Exit exactly when the environment is well formed and the command is a lone `exit` |
| Util.ExecuteSkipsNonPipe | src/rush/util.rs:19-82 | with a well-formed environment, a double-bar, `&&`, `&` or `;` successor makes execute return Success having run nothing |
| Repl.StepOf | src/rush.rs:22-27 | an iteration executes nothing exactly when the line is blank, and otherwise its result is `execute` on the parsed command; `Ends` marks the iterations that leave the loop (Exit, or a panic) |
| Repl.BlankLineIsIdle | src/rush.rs:22-23 | a blank line executes nothing and does not end the loop |
| Repl.ExitLineStops | src/rush.rs:22-27 | a line leaves the loop through `break` exactly when the environment is well formed and the line is `exit` with no later operator |
| Repl.ErrorsContinue | src/rush.rs:24-26 | an error result or Success never ends the loop |
| Repl.MainLoop | src/rush.rs:17-30 | `main_loop` with the corrected line source of Findings row 1 (`ReadLine`), so it ends at end of input, and with the corrected child of Findings row 2 (`LaunchChild`), so a launched command's iteration is the parent's result alone: the iterations run are those of the lines read, in order; none but the last ends the session; the loop stops before the end of input only at a line that ends it |
| Repl.EndOfInputSpins | src/rush.rs:54-58 | as written, past end of input every iteration reads an empty line, is idle and does not end the loop |
| Repl.ReadLine | src/rush.rs:54-58 | the corrected line source: a line while input remains, None at end of input |
| Repl.LaunchInParent | src/rush/util.rs:91-95 | in the parent, a launched command's outcome is `rsh_launch`'s parent result and never ends the loop |
| Repl.FailedExecChildKeepsReading | src/rush/util.rs:94-99 | as written, a child whose `execvpe` cannot run the command gets the command-not-found error back from `execute`, as an iteration of its own copy of the REPL loop that does not end it |
| Repl.LaunchChild | src/rush/util.rs:117-130 | the corrected child is replaced by the program exactly when `execvpe` can run it and terminates otherwise; it never returns into the REPL |
| RshLoop.RshSplitLine | src/lib.rs:16-24 | there is no command exactly when the line is blank (the `unwrap` panic); otherwise the command followed by the arguments is the line's token sequence |
| RshLoop.RshExecute | src/lib.rs:30-33 | the legacy executor always returns Success (the only value of its status type) |

## Left out

- The PIPE orchestration in `execute` is not modelled: `pipe2`, the two forks, `dup2`/`close` and the two wait loops (src/rush/util.rs:27-80). These are process-level concurrency and descriptor handling. `Execute` gives only the parent's outcome: Success once both children are collected, or the fork failure. The parent never closes its own copies of the two pipe ends (src/rush/util.rs:29-49), so a downstream command that reads to end of input (`ls`, pipe, `wc -l`) never sees it, and the wait for it may never return; the model's Success assumes both children end. Pipe creation and fork failures are folded into `World.forkSucceeds`.
- Also not modelled: in the downstream child, a trailing `|` makes `split_out_command(...).unwrap()` panic (src/rush/util.rs:75), where a reader might expect a no-op.
- The fork, `execvpe` and `waitpid` calls of `rsh_launch` (src/rush/util.rs:104-133) are foreign OS calls and are not performed. Their answers are `World.forkSucceeds` and `World.executables`, and `RshLaunchParent`/`RshLaunchChild` give the result on each side of the fork. The argument vector and environment handed to `execvpe` are not modelled.
- `chdir`, `getcwd` and `fs::read_dir` are not performed. Only their answers are inputs, in `World`, and the model picks the path they are called with. The `entry.unwrap()` panic on an I/O error in the middle of a directory listing (src/rush/util.rs:191) is not modelled: a directory is either unreadable or listed completely.
- Repl.MainLoop: the environment entries and the `World` are fixed for the whole session, so a successful `cd` does not change what a later `pwd` or `which` sees.
- Repl.MainLoop: a launched command that `execvpe` cannot run is one parent iteration. As written, the failed child also reads the following lines (Findings row 2), so an `exit` after it ends only that child and the parent prompts again; the loop models the corrected child instead.
- Terminal I/O is not modelled: the prompt, flushing, the `read_line` `unwrap`, and everything printed (help text, `which` output formatting, error messages). `Which` returns the line's content as a `WhichReport`.
- `CString` interior-NUL failures and `to_str` UTF-8 failures are not modelled. Strings are `seq<char>` and never fail to convert.
- The panics of the `waitpid(...).unwrap()` calls are not modelled.
- Util.JoinPath models `Path::join` only for a plain file name. It does not cover absolute or multi-component names, which a directory listing does not produce.
- src/main.rs is not part of this model. It only fixes two environment strings and calls `main_loop`.

## Findings

| source | as written | input that shows it | evidently intended | confidence | as-written member | corrected member |
|---|---|---|---|---|---|---|
| src/rush.rs:54-58 | at end of input `read_line` returns `Ok(0)` and leaves the line empty, and the empty line parses to nothing, so `main_loop` prompts and reads again forever | closing standard input (Ctrl-D) at the prompt | end of input ends the loop | high; not executed | Repl.EndOfInputSpins | Repl.ReadLine, Repl.MainLoop |
| src/rush/util.rs:117-129 | in the forked child, a failed `execvpe` is returned with `?` and `execute` hands the error to the child's copy of `main_loop`, which goes on prompting (`LaunchChildAsWritten`, built from `Util.RshLaunchChild`) | a line naming a program that does not exist, e.g. `nosuchcommand` | the child reports the error and terminates | high; not executed | Repl.FailedExecChildKeepsReading | Repl.LaunchChild, Repl.MainLoop |
