/**
 * The command-line parser of the shell (src/rush.rs): the command chain types
 * and `split_out_command`, which turns the token stream of one input line into
 * a command, its arguments and, after the first control-flow operator, the
 * still unparsed rest of the stream.
 */
module Rush {
  import opened Wrappers
  import opened Text

  /** How the command relates to the one after it. */
  datatype ControlFlow = Pipe | Or | And | Simul | Both

  /** The operator and the tokens after it, kept unparsed (the Rust code keeps
      the live `SplitAsciiWhitespace` iterator; here it is the sequence of
      tokens that iterator has still to yield). */
  datatype SuccessiveCommand = SuccessiveCommand(controlflow: ControlFlow, commands: seq<string>)

  datatype CommandConfig = CommandConfig(
    command: string,
    argv: seq<string>,
    successiveCommand: Option<SuccessiveCommand>)

  datatype Status = Success | Exit

  /** The operator set `["|", "||", "&", "&&", ";"]` that ends a command. */
  predicate IsOperator(token: string) {
    token in ["|", "||", "&", "&&", ";"]
  }

  /** The `match` that names the operator; None where the source would reach
      its `panic!()` arm, which the membership test above keeps unreachable. */
  function ControlFlowOf(token: string): Option<ControlFlow> {
    match token
    case "|" => Some(Pipe)
    case "||" => Some(Or)
    case "&&" => Some(And)
    case "&" => Some(Simul)
    case ";" => Some(Both)
    case _ => None
  }

  /** The token each operator is written as. */
  function Symbol(cf: ControlFlow): string {
    match cf
    case Pipe => "|"
    case Or => "||"
    case And => "&&"
    case Simul => "&"
    case Both => ";"
  }

  /** The mapping is total on the operator set, undefined elsewhere, and
      inverse to the written form of each operator. */
  lemma ControlFlowOfOperator(token: string)
    ensures IsOperator(token) <==> ControlFlowOf(token).Some?
    ensures forall cf :: ControlFlowOf(token) == Some(cf) <==> token == Symbol(cf)
  {
  }

  /** Index of the first operator token at or after `from`, or `|tokens|`. */
  function FirstOperatorFrom(tokens: seq<string>, from: nat): (k: nat)
    requires from <= |tokens|
    ensures from <= k <= |tokens|
    ensures forall j :: from <= j < k ==> !IsOperator(tokens[j])
    ensures k < |tokens| ==> IsOperator(tokens[k])
    decreases |tokens| - from
  {
    if from == |tokens| || IsOperator(tokens[from]) then from
    else FirstOperatorFrom(tokens, from + 1)
  }

  /** What `split_out_command` returns for a token stream: nothing for an empty
      stream; otherwise the first token as the command and the start of argv
      (never itself tested against the operator set), argv running up to the
      first later operator, and that operator with the tokens after it as the
      successive command. */
  function Parse(tokens: seq<string>): (r: Option<CommandConfig>)
    ensures r.None? <==> tokens == []
    ensures r.Some? ==> r.value.command == tokens[0] && |r.value.argv| >= 1 && r.value.argv[0] == tokens[0]
    ensures r.Some? && r.value.successiveCommand.None? ==> r.value.argv == tokens
  {
    if tokens == [] then None
    else
      var k := FirstOperatorFrom(tokens, 1);
      var successor :=
        if k == |tokens| then None
        else Some(SuccessiveCommand(ControlFlowOf(tokens[k]).value, tokens[k + 1..]));
      Some(CommandConfig(tokens[0], tokens[..k], successor))
  }

  /** The shape every parsed command has: argv starts with the command, and
      no later argument is an operator. */
  predicate WellFormed(c: CommandConfig) {
    && |c.argv| >= 1
    && c.argv[0] == c.command
    && forall j :: 1 <= j < |c.argv| ==> !IsOperator(c.argv[j])
  }

  /** The token stream a command chain was read from. */
  function Unparse(c: CommandConfig): seq<string> {
    match c.successiveCommand
    case None => c.argv
    case Some(succ) => c.argv + [Symbol(succ.controlflow)] + succ.commands
  }

  /** `split_out_command` consuming its iterator: the first token seeds argv,
      each later token is pushed until an operator ends the command. */
  method SplitOutCommand(tokens: seq<string>) returns (r: Option<CommandConfig>)
    ensures r == Parse(tokens)
  {
    if tokens == [] {
      return None;
    }
    var command := tokens[0];
    var argv := [command];
    var i := 1;
    while i < |tokens|
      invariant 1 <= i <= |tokens|
      invariant argv == tokens[..i]
      invariant forall j :: 1 <= j < i ==> !IsOperator(tokens[j])
    {
      var arg := tokens[i];
      i := i + 1;
      if IsOperator(arg) {
        ControlFlowOfOperator(arg);
        var controlflow := ControlFlowOf(arg).value;
        FirstOperatorIs(tokens, 1, i - 1);
        return Some(CommandConfig(command, argv, Some(SuccessiveCommand(controlflow, tokens[i..]))));
      }
      argv := argv + [arg];
    }
    FirstOperatorIs(tokens, 1, i);
    return Some(CommandConfig(command, argv, None));
  }

  /** The first-operator index is pinned down by its two defining facts. */
  lemma {:induction false} FirstOperatorIs(tokens: seq<string>, from: nat, k: nat)
    requires from <= k <= |tokens|
    requires forall j :: from <= j < k ==> !IsOperator(tokens[j])
    requires k < |tokens| ==> IsOperator(tokens[k])
    ensures FirstOperatorFrom(tokens, from) == k
    decreases k - from
  {
    if from < k {
      FirstOperatorIs(tokens, from + 1, k);
    }
  }

  /** Soundness: a parsed command is well formed, its command is the first
      token, and it accounts for every token of the stream, in order. */
  lemma ParseSound(tokens: seq<string>)
    requires tokens != []
    ensures Parse(tokens).Some?
    ensures WellFormed(Parse(tokens).value)
    ensures Parse(tokens).value.command == tokens[0]
    ensures Unparse(Parse(tokens).value) == tokens
  {
    var c := Parse(tokens).value;
    var k := FirstOperatorFrom(tokens, 1);
    if k < |tokens| {
      ControlFlowOfOperator(tokens[k]);
      assert tokens == tokens[..k] + [tokens[k]] + tokens[k + 1..];
    }
  }

  /** Completeness: every well-formed command chain is what parsing its own
      token stream gives, so parsing and `Unparse` are inverse. */
  lemma ParseUnparse(c: CommandConfig)
    requires WellFormed(c)
    ensures Parse(Unparse(c)) == Some(c)
  {
    var tokens := Unparse(c);
    var n := |c.argv|;
    assert tokens[..n] == c.argv;
    match c.successiveCommand
    case None =>
      FirstOperatorIs(tokens, 1, n);
    case Some(succ) =>
      ControlFlowOfOperator(Symbol(succ.controlflow));
      FirstOperatorIs(tokens, 1, n);
      assert tokens[n + 1..] == succ.commands;
  }

  /** A stream with no operator after its first token becomes a single
      command whose argv is the whole stream. */
  lemma ParseNoOperator(tokens: seq<string>)
    requires tokens != []
    requires forall j :: 1 <= j < |tokens| ==> !IsOperator(tokens[j])
    ensures Parse(tokens) == Some(CommandConfig(tokens[0], tokens, None))
  {
    FirstOperatorIs(tokens, 1, |tokens|);
    assert tokens[..|tokens|] == tokens;
  }

  /** At the first operator after position 0, argv is exactly the tokens before
      it, the operator is mapped to its tag and dropped, and the successor
      keeps every later token, operators included, unparsed. */
  lemma ParseAtOperator(tokens: seq<string>, k: nat)
    requires 1 <= k < |tokens| && IsOperator(tokens[k])
    requires forall j :: 1 <= j < k ==> !IsOperator(tokens[j])
    ensures Parse(tokens).Some?
    ensures Parse(tokens).value.argv == tokens[..k]
    ensures forall j :: 1 <= j < |Parse(tokens).value.argv| ==> Parse(tokens).value.argv[j] != tokens[k]
    ensures Parse(tokens).value.successiveCommand
         == Some(SuccessiveCommand(ControlFlowOf(tokens[k]).value, tokens[k + 1..]))
  {
    FirstOperatorIs(tokens, 1, k);
    ControlFlowOfOperator(tokens[k]);
  }

  /** A line that is empty or only whitespace is a no-op iteration. */
  lemma BlankLineParsesToNothing(line: string)
    ensures Parse(Tokenize(line)).None? <==> AllWhitespace(line)
  {
    TokenizeEmpty(line);
  }

  /** Cases of the parser test in src/rush.rs: plain commands, where `>` is
      an ordinary argument. */
  lemma ParseExamplesPlain()
    ensures Parse(["ls", "some_file"]) == Some(CommandConfig("ls", ["ls", "some_file"], None))
    ensures Parse(["cat", "some_file", ">", "out.txt"])
         == Some(CommandConfig("cat", ["cat", "some_file", ">", "out.txt"], None))
  {
    ParseNoOperator(["ls", "some_file"]);
    ParseNoOperator(["cat", "some_file", ">", "out.txt"]);
  }

  /** The test line with a trailing `||` followed by spaces: the spaces
      yield no token, so the operator is the last token. */
  lemma TrailingOrLine()
    ensures Tokenize("cat some_file ||    ") == ["cat", "some_file", "||"]
  {
    assert JoinWords(["cat", "some_file", "||"]) + "    " == "cat some_file ||    ";
    TokenizeJoinWords(["cat", "some_file", "||"], "    ");
  }

  /** Cases of the parser test in src/rush.rs: a pipe, and a trailing `||`
      whose successor has nothing left to parse. */
  lemma ParseExamplesSuccessor()
    ensures Parse(["cat", "some_file", "|", "less"])
         == Some(CommandConfig("cat", ["cat", "some_file"], Some(SuccessiveCommand(Pipe, ["less"]))))
    ensures Parse(["cat", "some_file", "||"])
         == Some(CommandConfig("cat", ["cat", "some_file"], Some(SuccessiveCommand(Or, []))))
  {
    var p := ["cat", "some_file", "|", "less"];
    ParseAtOperator(p, 2);
    assert p[..2] == ["cat", "some_file"] && p[3..] == ["less"];
    assert ControlFlowOf("|") == Some(Pipe);
    var o := ["cat", "some_file", "||"];
    ParseAtOperator(o, 2);
    assert o[..2] == ["cat", "some_file"] && o[3..] == [];
    assert ControlFlowOf("||") == Some(Or);
  }

  /** Cases of the parser test in src/rush.rs: only the first operator is
      parsed; the later `||` stays in the successor's stream. */
  lemma ParseExamplesChain()
    ensures Parse(["cat", "some_file", ">", "out.txt", "&&", "ls", "||", "cat", "out.txt"])
         == Some(CommandConfig("cat", ["cat", "some_file", ">", "out.txt"],
                               Some(SuccessiveCommand(And, ["ls", "||", "cat", "out.txt"]))))
  {
    var t := ["cat", "some_file", ">", "out.txt", "&&", "ls", "||", "cat", "out.txt"];
    ParseAtOperator(t, 4);
    assert t[..4] == ["cat", "some_file", ">", "out.txt"] && t[5..] == ["ls", "||", "cat", "out.txt"];
    assert ControlFlowOf("&&") == Some(And);
  }

  /** Cases of the parser test in src/rush.rs: `&` and `;` as the first
      operator are tagged SIMUL and BOTH, with the same successor stream. */
  lemma ParseExamplesSimulBoth()
    ensures Parse(["cat", "some_file", ">", "out.txt", "&", "ls", "||", "cat", "out.txt"])
         == Some(CommandConfig("cat", ["cat", "some_file", ">", "out.txt"],
                               Some(SuccessiveCommand(Simul, ["ls", "||", "cat", "out.txt"]))))
    ensures Parse(["cat", "some_file", ">", "out.txt", ";", "ls", "||", "cat", "out.txt"])
         == Some(CommandConfig("cat", ["cat", "some_file", ">", "out.txt"],
                               Some(SuccessiveCommand(Both, ["ls", "||", "cat", "out.txt"]))))
  {
    var a := ["cat", "some_file", ">", "out.txt", "&", "ls", "||", "cat", "out.txt"];
    ParseAtOperator(a, 4);
    assert a[..4] == ["cat", "some_file", ">", "out.txt"] && a[5..] == ["ls", "||", "cat", "out.txt"];
    assert ControlFlowOf("&") == Some(Simul);
    var b := ["cat", "some_file", ">", "out.txt", ";", "ls", "||", "cat", "out.txt"];
    ParseAtOperator(b, 4);
    assert b[..4] == ["cat", "some_file", ">", "out.txt"] && b[5..] == ["ls", "||", "cat", "out.txt"];
    assert ControlFlowOf(";") == Some(Both);
  }
}
