/**
 * The earlier REPL helpers kept in src/lib.rs (`rsh_loop`): a splitter that
 * knows nothing of control-flow operators, and an executor that only echoes.
 */
module RshLoop {
  import opened Wrappers
  import opened Text

  datatype CommandConfig = CommandConfig(command: string, args: seq<string>)

  /** The legacy status type has a single value. */
  datatype Status = Success

  /** `rsh_split_line`: the first whitespace token is the command and every
      later token, in order, an argument. None stands for the `unwrap` panic
      on a line with no token. */
  method RshSplitLine(line: string) returns (r: Option<CommandConfig>)
    ensures r.None? <==> AllWhitespace(line)
    ensures r.Some? ==> [r.value.command] + r.value.args == Tokenize(line)
  {
    var inputs := Tokenize(line);
    TokenizeEmpty(line);
    if inputs == [] {
      return None;
    }
    var command := inputs[0];
    var args := [];
    var i := 1;
    while i < |inputs|
      invariant 1 <= i <= |inputs|
      invariant [command] + args == inputs[..i]
    {
      args := args + [inputs[i]];
      i := i + 1;
    }
    assert inputs[..|inputs|] == inputs;
    return Some(CommandConfig(command, args));
  }

  /** `rsh_execute`: prints the command (not modelled) and reports Success. */
  function RshExecute(config: CommandConfig): (s: Status)
    ensures s == Success
  {
    Success
  }
}
