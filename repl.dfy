/**
 * The REPL driver of the shell (`main_loop` in src/rush.rs): read a line,
 * parse it, execute it unless it is empty, and go round again unless the
 * execution returned Exit. Lines come from a finite input; the environment
 * entries and the `World` are fixed for the whole session.
 */
module Repl {
  import opened Wrappers
  import opened Text
  import opened Rush
  import opened Util

  /** One iteration: nothing ran (the line had no tokens), or a command ran
      with the given outcome. */
  datatype Step = Idle | Ran(outcome: Outcome)

  /** The iteration for one input line: `execute` runs exactly when the line
      holds a token. */
  function StepOf(line: string, envVars: seq<string>, world: World): (step: Step)
    ensures step.Idle? <==> AllWhitespace(line)
    ensures step.Ran? ==>
      Parse(Tokenize(line)).Some? && step.outcome == Execute(Parse(Tokenize(line)).value, envVars, world)
  {
    BlankLineParsesToNothing(line);
    match Parse(Tokenize(line))
    case None => Idle
    case Some(config) => Ran(Execute(config, envVars, world))
  }

  /** The session ends after this iteration: `execute` returned `Ok(Exit)`
      (the loop's `break`), or it panicked (the process aborts). An error
      result or Success goes round again. */
  predicate Ends(step: Step) {
    step == Ran(Done(Exit)) || (step.Ran? && step.outcome.Panicked?)
  }

  /** A blank line executes nothing and the loop carries on. */
  lemma BlankLineIsIdle(line: string, envVars: seq<string>, world: World)
    requires AllWhitespace(line)
    ensures StepOf(line, envVars, world) == Idle
    ensures !Ends(StepOf(line, envVars, world))
  {
    BlankLineParsesToNothing(line);
  }

  /** A line leaves the loop through `break` exactly when the environment is
      well formed and the line is `exit`, possibly with arguments, and with no
      control-flow operator after it. */
  lemma ExitLineStops(line: string, envVars: seq<string>, world: World)
    ensures StepOf(line, envVars, world) == Ran(Done(Exit)) <==>
      && EnvMapOf(envVars).Ok?
      && |Tokenize(line)| >= 1
      && Tokenize(line)[0] == "exit"
      && forall j :: 1 <= j < |Tokenize(line)| ==> !IsOperator(Tokenize(line)[j])
  {
    var tokens := Tokenize(line);
    if tokens != [] {
      ParseSound(tokens);
      var c := Parse(tokens).value;
      ExecuteExit(c, envVars, world);
      if c.successiveCommand.None? {
        assert c.argv == tokens;
      } else {
        var n := |c.argv|;
        assert tokens[n] == Symbol(c.successiveCommand.value.controlflow);
        ControlFlowOfOperator(tokens[n]);
        assert IsOperator(tokens[n]);
      }
    }
  }

  /** Failed commands never end the session: only Exit or a panic do. */
  lemma ErrorsContinue(line: string, envVars: seq<string>, world: World)
    requires StepOf(line, envVars, world).Ran?
    requires StepOf(line, envVars, world).outcome.Failed?
      || StepOf(line, envVars, world).outcome == Done(Success)
    ensures !Ends(StepOf(line, envVars, world))
  {
  }

  /** `read_line` as the source writes it: past the end of the input,
      `read_line` reads zero bytes and hands back an empty line. */
  function ReadLineAsWritten(input: seq<string>, pos: nat): string {
    if pos < |input| then input[pos] else ""
  }

  /** Consequence: once the input is exhausted every iteration is idle and
      none ends the session, so `main_loop` prompts forever. */
  lemma EndOfInputSpins(input: seq<string>, envVars: seq<string>, world: World, pos: nat)
    requires pos >= |input|
    ensures StepOf(ReadLineAsWritten(input, pos), envVars, world) == Idle
    ensures !Ends(StepOf(ReadLineAsWritten(input, pos), envVars, world))
  {
    BlankLineIsIdle("", envVars, world);
  }

  /** The line source with end of input made visible: None once the input is
      exhausted, which ends the loop. */
  function ReadLine(input: seq<string>, pos: nat): (r: Option<string>)
    ensures r.None? <==> pos >= |input|
    ensures r.Some? ==> r.value == input[pos]
  {
    if pos < |input| then Some(input[pos]) else None
  }

  /** `main_loop` with two corrections. Its lines come from `ReadLine`, so it
      ends at end of input (the as-written loop spins there, see
      `EndOfInputSpins`). A launched command's iteration is the parent's
      result alone, which assumes the corrected child `LaunchChild`: as
      written, a child whose `execvpe` fails goes on reading the following
      lines itself (see `FailedExecChildKeepsReading`). The iterations run
      are exactly those of the lines read, none but the last ends the
      session, and the loop stops early only at a line that ends it. */
  method MainLoop(input: seq<string>, envVars: seq<string>, world: World) returns (steps: seq<Step>)
    ensures |steps| <= |input|
    ensures forall i :: 0 <= i < |steps| ==> steps[i] == StepOf(input[i], envVars, world)
    ensures forall i :: 0 <= i < |steps| - 1 ==> !Ends(steps[i])
    ensures |steps| < |input| ==> |steps| > 0 && Ends(steps[|steps| - 1])
  {
    steps := [];
    var pos := 0;
    while true
      invariant pos == |steps| <= |input|
      invariant forall i :: 0 <= i < |steps| ==> steps[i] == StepOf(input[i], envVars, world)
      invariant forall i :: 0 <= i < |steps| ==> !Ends(steps[i])
      decreases |input| - pos
    {
      var line := ReadLine(input, pos);
      if line.None? {
        return;
      }
      pos := pos + 1;
      var commandConfigs := SplitOutCommand(Tokenize(line.value));
      var step := Idle;
      if commandConfigs.Some? {
        step := Ran(Execute(commandConfigs.value, envVars, world));
      }
      steps := steps + [step];
      if Ends(step) {
        return;
      }
    }
  }

  /** Where a process forked by `rsh_launch` ends up after trying `execvpe`. */
  datatype ChildFate = Replaced | BackInRepl(step: Step) | Terminated

  /** In the parent, a launched command's iteration is `rsh_launch`'s
      parent result: Success once the child is reaped, or the fork error. */
  lemma LaunchInParent(config: CommandConfig, envVars: seq<string>, world: World)
    requires EnvMapOf(envVars).Ok? && Dispatch(config) == Launch
    ensures Execute(config, envVars, world) == RshLaunchParent(world)
    ensures !Ends(Ran(Execute(config, envVars, world)))
  {
  }

  /** The child side of `rsh_launch` as written: when `execvpe` fails, the
      child's `rsh_launch` returns the error, its `execute` hands it on, and
      the child's own copy of `main_loop` takes that as the iteration's
      result. */
  function LaunchChildAsWritten(config: CommandConfig, envVars: seq<string>, world: World): ChildFate
    requires EnvMapOf(envVars).Ok? && Dispatch(config) == Launch
  {
    match RshLaunchChild(config, world)
    case None => Replaced
    case Some(outcome) => BackInRepl(Ran(outcome))
  }

  /** Consequence: a command that cannot be executed leaves a second shell
      reading the same input while the parent waits for it. */
  lemma FailedExecChildKeepsReading(config: CommandConfig, envVars: seq<string>, world: World)
    requires EnvMapOf(envVars).Ok? && Dispatch(config) == Launch
    requires config.command !in world.executables
    ensures LaunchChildAsWritten(config, envVars, world).BackInRepl?
    ensures LaunchChildAsWritten(config, envVars, world).step == Ran(Failed(CommandNotFound(config.command)))
    ensures !Ends(LaunchChildAsWritten(config, envVars, world).step)
  {
  }

  /** The child side with the failure path ending the child. */
  function LaunchChild(config: CommandConfig, world: World): (fate: ChildFate)
    ensures !fate.BackInRepl?
    ensures fate == Replaced <==> RshLaunchChild(config, world).None?
    ensures fate == Terminated <==> config.command !in world.executables
  {
    if RshLaunchChild(config, world).None? then Replaced else Terminated
  }
}
