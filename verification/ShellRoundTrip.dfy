/** waf-tools/shellcmd.py: parsing undoes rendering, and produces well-formed pipelines only. */
module ShellRoundTrip {
  import opened Wrappers
  import opened Sequences
  import opened ShellParse

  /** Reading assignments one after the other. */
  ghost function Bound(before: map<string, string>, keys: seq<string>, env_vars: map<string, string>)
    : (m: map<string, string>)
    requires forall key :: key in keys ==> key in env_vars
    ensures forall key :: key in m <==> key in before || key in keys
    ensures forall key :: key in m ==> m[key] == if key in keys then env_vars[key] else before[key]
  {
    if keys == [] then before
    else
      var key := keys[|keys| - 1];
      Bound(before, keys[..|keys| - 1], env_vars)[key := env_vars[key]]
  }

  lemma {:induction false} EnvParses(before: map<string, string>, keys: seq<string>, env_vars: map<string, string>,
                                     acc: seq<Node>, rest: seq<string>)
    requires forall key :: key in keys ==> key in env_vars && IsName(key) && IsValue(env_vars[key])
    ensures ParseFrom(Parser(Begin, before, acc), EnvTokens(keys, env_vars) + rest)
         == ParseFrom(Parser(Begin, Bound(before, keys, env_vars), acc), rest)
    decreases |keys|
  {
    if keys == [] {
      assert EnvTokens(keys, env_vars) + rest == rest;
    } else {
      var front, key := keys[..|keys| - 1], keys[|keys| - 1];
      var token := Assignment(key, env_vars[key]);
      EnvParses(before, front, env_vars, acc, [token] + rest);
      Regroup3(EnvTokens(front, env_vars), [token], rest);
      EnvMatchAssignment(key, env_vars[key]);
      ParseStep(Parser(Begin, Bound(before, front, env_vars), acc), token, rest);
    }
  }

  lemma EnvironmentParses(env_vars: map<string, string>, keys: seq<string>, acc: seq<Node>, rest: seq<string>)
    requires forall key :: key in keys <==> key in env_vars
    requires forall key :: key in env_vars ==> IsName(key) && IsValue(env_vars[key])
    ensures ParseFrom(Parser(Begin, map[], acc), EnvTokens(keys, env_vars) + rest)
         == ParseFrom(Parser(Begin, env_vars, acc), rest)
  {
    EnvParses(map[], keys, env_vars, acc, rest);
    assert Bound(map[], keys, env_vars) == env_vars;
  }

  lemma {:induction false} WordsParse(c: Command, words: seq<string>, acc: seq<Node>, rest: seq<string>)
    requires forall i :: 0 <= i < |words| ==> !Special(words[i])
    ensures ParseFrom(Parser(InCommand(c, Word), map[], acc), words + rest)
         == ParseFrom(Parser(InCommand(c.(argv := c.argv + words), Word), map[], acc), rest)
    decreases |words|
  {
    if words == [] {
      assert c.argv + words == c.argv && words + rest == rest;
    } else {
      var c' := c.(argv := c.argv + [words[0]]);
      ParseStep(Parser(InCommand(c, Word), map[], acc), words[0], words[1..] + rest);
      assert [words[0]] + (words[1..] + rest) == words + rest;
      WordsParse(c', words[1..], acc, rest);
      assert c'.argv + words[1..] == c.argv + words;
    }
  }

  /** What a command looks like before an operator is read: the pipe is not known yet. */
  function Unpiped(c: Command): Command {
    if c.stdout.ToPipe? then c.(stdout := Inherited) else c
  }

  lemma TwoTokens(s: Parser, a: string, b: string, rest: seq<string>)
    requires Next(s, a).Ok? && Next(Next(s, a).value, b).Ok?
    ensures ParseFrom(s, [a, b] + rest) == ParseFrom(Next(Next(s, a).value, b).value, rest)
  {
    ParseStep(s, a, [b] + rest);
    ParseStep(Next(s, a).value, b, rest);
    assert [a] + ([b] + rest) == [a, b] + rest;
  }

  lemma StdinParses(c: Command, bare: Command, acc: seq<Node>, rest: seq<string>)
    requires bare == c.(stdin := None)
    ensures ParseFrom(Parser(InCommand(bare, Word), map[], acc), StdinTokens(c.stdin) + rest)
         == ParseFrom(Parser(InCommand(c, Word), map[], acc), rest)
  {
    if c.stdin.Some? {
      TwoTokens(Parser(InCommand(bare, Word), map[], acc), "<", c.stdin.value, rest);
    } else {
      assert [] + rest == rest;
    }
  }

  lemma StdoutParses(c: Command, bare: Command, acc: seq<Node>, rest: seq<string>)
    requires bare == c.(stdout := Inherited) && (c.stdout.ToFile? || c.stdout.Inherited?)
    ensures ParseFrom(Parser(InCommand(bare, Word), map[], acc), StdoutTokens(c.stdout) + rest)
         == ParseFrom(Parser(InCommand(c, Word), map[], acc), rest)
  {
    if c.stdout.ToFile? {
      TwoTokens(Parser(InCommand(bare, Word), map[], acc), ">", c.stdout.name, rest);
    } else {
      assert [] + rest == rest;
    }
  }

  lemma StderrParses(c: Command, bare: Command, acc: seq<Node>, rest: seq<string>)
    requires bare == c.(stderr := Inherited) && !c.stderr.ToPipe?
    ensures ParseFrom(Parser(InCommand(bare, Word), map[], acc), StderrTokens(c.stderr) + rest)
         == ParseFrom(Parser(InCommand(c, Word), map[], acc), rest)
  {
    match c.stderr
    case ToFile(name) => TwoTokens(Parser(InCommand(bare, Word), map[], acc), "2>", name, rest);
    case ToStdout => ParseStep(Parser(InCommand(bare, Word), map[], acc), "2>&1", rest);
    case Inherited => assert [] + rest == rest;
  }

  lemma RedirectionsParse(c: Command, acc: seq<Node>, rest: seq<string>)
    requires c.stdout.ToFile? || c.stdout.Inherited?
    requires !c.stderr.ToPipe?
    ensures ParseFrom(Parser(InCommand(c.(stdin := None, stdout := Inherited, stderr := Inherited), Word), map[], acc),
                      Redirections(c) + rest)
         == ParseFrom(Parser(InCommand(c, Word), map[], acc), rest)
  {
    var a, b, d := StdinTokens(c.stdin), StdoutTokens(c.stdout), StderrTokens(c.stderr);
    var noErr := c.(stderr := Inherited);
    var noOut := noErr.(stdout := Inherited);
    StdinParses(noOut, noOut.(stdin := None), acc, b + (d + rest));
    StdoutParses(noErr, noOut, acc, d + rest);
    StderrParses(c, noErr, acc, rest);
    Regroup4(a, b, d, rest);
  }

  lemma CommandParses(c: Command, order: Order, acc: seq<Node>, rest: seq<string>)
    requires CommandOk(c) && Lists(order)
    ensures ParseFrom(Parser(Begin, map[], acc), NodeTokens(Cmd(c), order) + rest)
         == ParseFrom(Parser(InCommand(Unpiped(c), Word), map[], acc), rest)
  {
    var tail := Redirections(c) + rest;
    var env := EnvTokens(order(c.env_vars), c.env_vars);
    EnvironmentParses(c.env_vars, order(c.env_vars), acc, c.argv + tail);
    Regroup4(env, c.argv, Redirections(c), rest);
    ArgvParses(c, acc, tail);
    assert Redirections(Unpiped(c)) == Redirections(c);
    RedirectionsParse(Unpiped(c), acc, rest);
  }

  lemma ArgvParses(c: Command, acc: seq<Node>, tail: seq<string>)
    requires CommandOk(c)
    ensures ParseFrom(Parser(Begin, c.env_vars, acc), c.argv + tail)
         == ParseFrom(Parser(InCommand(c.(stdin := None, stdout := Inherited, stderr := Inherited), Word), map[], acc),
                      tail)
  {
    var words := c.argv[1..];
    var named := NewCommand(c.name, c.env_vars);
    ParseStep(Parser(Begin, c.env_vars, acc), c.name, words + tail);
    assert [c.name] + (words + tail) == c.argv + tail;
    WordsParse(named, words, acc, tail);
    assert [c.name] + words == c.argv;
  }

  lemma ChdirParses(dir: Option<string>, order: Order, acc: seq<Node>, rest: seq<string>)
    requires dir != Some("&&")
    ensures ParseFrom(Parser(Begin, map[], acc), NodeTokens(Chdir(dir), order) + rest)
         == ParseFrom(Parser(InChdir(dir), map[], acc), rest)
  {
    assert NameLength("cd") == 2;
    assert EnvMatch("cd") == None;
    if dir.Some? {
      TwoTokens(Parser(Begin, map[], acc), "cd", dir.value, rest);
    } else {
      ParseStep(Parser(Begin, map[], acc), "cd", rest);
    }
  }

  /** One node and the operator after it. */
  lemma NodeAndOpParse(n: Node, op: Node, order: Order, acc: seq<Node>, rest: seq<string>)
    requires IsOp(op) && NodeOk(n, Some(op)) && Lists(order)
    ensures ParseFrom(Parser(Begin, map[], acc), NodeTokens(n, order) + (NodeTokens(op, order) + rest))
         == ParseFrom(Parser(Begin, map[], acc + [n, op]), rest)
  {
    var token := NodeTokens(op, order)[0];
    assert NodeTokens(op, order) == [token];
    match n
    case Cmd(c) =>
      CommandParses(c, order, acc, [token] + rest);
      ParseStep(Parser(InCommand(Unpiped(c), Word), map[], acc), token, rest);
    case Chdir(dir) =>
      ChdirParses(dir, order, acc, [token] + rest);
      ParseStep(Parser(InChdir(dir), map[], acc), token, rest);
  }

  lemma LastNodeParses(n: Node, order: Order, acc: seq<Node>)
    requires NodeOk(n, None) && Lists(order)
    ensures ParseFrom(Parser(Begin, map[], acc), NodeTokens(n, order) + []) == Ok(acc + [n])
  {
    match n
    case Cmd(c) => CommandParses(c, order, acc, []);
    case Chdir(dir) => ChdirParses(dir, order, acc, []);
  }

  lemma WellFormedTail(p: seq<Node>)
    requires WellFormed(p) && |p| > 1
    ensures WellFormed(p[2..]) && NodeOk(p[0], Some(p[1])) && IsOp(p[1])
  {
    assert PlaceOk(p, 0) && PlaceOk(p, 1);
    forall i | 0 <= i < |p[2..]|
      ensures PlaceOk(p[2..], i)
    {
      assert PlaceOk(p, i + 2);
    }
  }

  lemma RenderOne(p: seq<Node>, order: Order, acc: seq<Node>)
    requires |p| == 1 && NodeOk(p[0], None) && Lists(order)
    ensures ParseFrom(Parser(Begin, map[], acc), Render(p, order)) == Ok(acc + p)
  {
    assert Render(p, order) == NodeTokens(p[0], order) + [];
    LastNodeParses(p[0], order, acc);
    assert acc + [p[0]] == acc + p;
  }

  lemma RenderStep(p: seq<Node>, order: Order, acc: seq<Node>)
    requires |p| > 1 && NodeOk(p[0], Some(p[1])) && IsOp(p[1]) && Lists(order)
    ensures ParseFrom(Parser(Begin, map[], acc), Render(p, order))
         == ParseFrom(Parser(Begin, map[], acc + [p[0], p[1]]), Render(p[2..], order))
  {
    NodeAndOpParse(p[0], p[1], order, acc, Render(p[2..], order));
  }

  lemma FirstTwo<T>(p: seq<T>, acc: seq<T>)
    requires |p| > 1
    ensures acc + [p[0], p[1]] + p[2..] == acc + p
  {
  }

  lemma {:induction false} RenderParses(p: seq<Node>, order: Order, acc: seq<Node>)
    requires WellFormed(p) && Lists(order)
    ensures ParseFrom(Parser(Begin, map[], acc), Render(p, order)) == Ok(acc + p)
    decreases |p|
  {
    if |p| == 1 {
      assert PlaceOk(p, 0);
      RenderOne(p, order, acc);
    } else {
      WellFormedTail(p);
      RenderStep(p, order, acc);
      RenderParses(p[2..], order, acc + [p[0], p[1]]);
      FirstTwo(p, acc);
    }
  }

  /** Parsing the canonical tokens of a well-formed pipeline gives it back, in whatever order the assignments stand. */
  lemma ParseRender(p: seq<Node>, order: Order)
    requires WellFormed(p) && Lists(order)
    ensures Parse(Render(p, order)) == Ok(p)
  {
    RenderParses(p, order, []);
    assert [] + p == p;
  }

  // ---------- everything parsed is well formed ----------

  predicate EnvOk(env_vars: map<string, string>) {
    forall key :: key in env_vars ==> IsName(key) && IsValue(env_vars[key])
  }

  /** Complete node-operator pairs. */
  predicate PairsOk(p: seq<Node>) {
    |p| % 2 == 0 && forall i :: 0 <= i < |p| ==> PlaceOk(p, i)
  }

  predicate ParserOk(s: Parser) {
    && PairsOk(s.pipeline) && EnvOk(s.env_vars)
    && match s.current
       case Begin => true
       case InCommand(c, _) => CommandOk(c) && c.stdout != ToPipe && s.env_vars == map[]
       case InChdir(dir) => dir != Some("&&") && s.env_vars == map[]
  }

  lemma CommitOk(s: Parser, n: Node, op: Node)
    requires PairsOk(s.pipeline) && EnvOk(s.env_vars) && IsOp(op) && NodeOk(n, Some(op))
    ensures ParserOk(Commit(s, n, op))
  {
    var p := s.pipeline + [n, op];
    forall i | 0 <= i < |p|
      ensures PlaceOk(p, i)
    {
      if i < |s.pipeline| {
        assert PlaceOk(s.pipeline, i);
      }
    }
  }

  lemma WordOk(s: Parser, c: Command, token: string)
    requires ParserOk(s) && s.current == InCommand(c, Word) && NextWord(s, c, token).Ok?
    ensures ParserOk(NextWord(s, c, token).value)
  {
    if token == "|" {
      CommitOk(s, Cmd(c.(stdout := ToPipe)), Pipe);
    } else if token == "&&" {
      CommitOk(s, Cmd(c), And);
    } else if token == "||" {
      CommitOk(s, Cmd(c), Or);
    } else if !Special(token) {
      assert CommandOk(c.(argv := c.argv + [token]));
    }
  }

  lemma NextOk(s: Parser, token: string)
    requires ParserOk(s) && Next(s, token).Ok?
    ensures ParserOk(Next(s, token).value)
  {
    match s.current
    case Begin => BeginOk(s, token);
    case InChdir(dir) =>
      if token == "&&" {
        CommitOk(s, Chdir(dir), And);
      }
    case InCommand(c, Word) => WordOk(s, c, token);
    case InCommand(c, _) =>
  }

  lemma BeginOk(s: Parser, token: string)
    requires PairsOk(s.pipeline) && EnvOk(s.env_vars) && s.current == Begin && NextAtBegin(s, token).Ok?
    ensures ParserOk(NextAtBegin(s, token).value)
  {
    var m := EnvMatch(token);
    if m.Some? {
      assert EnvOk(s.env_vars[m.value.0 := m.value.1]);
    } else if token != "cd" {
      assert CommandOk(NewCommand(token, s.env_vars));
    } else {
      assert s.env_vars == map[];
    }
  }

  lemma {:induction false} ParsedIsWellFormed(s: Parser, tokens: seq<string>)
    requires ParserOk(s) && ParseFrom(s, tokens).Ok?
    ensures WellFormed(ParseFrom(s, tokens).value)
    decreases |tokens|
  {
    if tokens == [] {
      var p := Finish(s).value;
      forall i | 0 <= i < |p|
        ensures PlaceOk(p, i)
      {
        if i < |s.pipeline| {
          assert PlaceOk(s.pipeline, i);
        }
      }
    } else {
      NextOk(s, tokens[0]);
      ParsedIsWellFormed(Next(s, tokens[0]).value, tokens[1..]);
    }
  }

  ghost function AnOrder(env_vars: map<string, string>): seq<string> {
    if env_vars == map[] then []
    else
      var key :| key in env_vars;
      [key] + AnOrder(env_vars - {key})
  }

  lemma {:induction false} AnOrderLists(env_vars: map<string, string>)
    ensures forall key :: key in AnOrder(env_vars) <==> key in env_vars
    decreases |env_vars|
  {
    if env_vars != map[] {
      var key :| key in env_vars && AnOrder(env_vars) == [key] + AnOrder(env_vars - {key});
      AnOrderLists(env_vars - {key});
    }
  }

  /** The pipelines that parsing can return are exactly the well-formed ones. */
  lemma ParseImage(p: seq<Node>)
    ensures WellFormed(p) <==> exists tokens :: Parse(tokens) == Ok(p)
  {
    if WellFormed(p) {
      var order := AnOrder;
      forall env_vars, key
        ensures key in order(env_vars) <==> key in env_vars
      {
        AnOrderLists(env_vars);
      }
      ParseRender(p, order);
      assert Parse(Render(p, order)) == Ok(p);
    }
    if tokens :| Parse(tokens) == Ok(p) {
      ParsedIsWellFormed(START, tokens);
    }
  }

  /** Rendering what was parsed and parsing again changes nothing. */
  lemma ReparseIsStable(tokens: seq<string>, order: Order)
    requires Parse(tokens).Ok? && Lists(order)
    ensures Parse(Render(Parse(tokens).value, order)) == Parse(tokens)
  {
    ParsedIsWellFormed(START, tokens);
    ParseRender(Parse(tokens).value, order);
  }

  /** In a parsed pipeline a command writes to a pipe exactly when a pipe follows it. */
  lemma PipeIffPipeFollows(tokens: seq<string>, i: nat)
    requires Parse(tokens).Ok? && i < |Parse(tokens).value| && Parse(tokens).value[i].Cmd?
    ensures var p := Parse(tokens).value;
      p[i].command.stdout == ToPipe <==> i + 1 < |p| && p[i + 1] == Pipe
  {
    ParsedIsWellFormed(START, tokens);
    assert PlaceOk(Parse(tokens).value, i);
  }

  // ---------- the class ----------

  /** The loop's `state`, as the source numbers it. */
  datatype State = BEGIN | COMMAND | CHDIR | STDERR | STDOUT | STDIN

  class Pipeline {
    var current_command: Option<Node>
    var pipeline: seq<Node>

    constructor ()
      ensures current_command == None && pipeline == []
    {
      current_command, pipeline := None, [];
    }

    /** The fields and the loop's variables, as one parser state. */
    ghost predicate Represents(state: State, env_vars: map<string, string>, s: Parser)
      reads this
    {
      && s.pipeline == pipeline && s.env_vars == env_vars
      && match s.current
         case Begin => state == BEGIN && current_command == None
         case InChdir(dir) => state == CHDIR && current_command == Some(Chdir(dir))
         case InCommand(c, Word) => state == COMMAND && current_command == Some(Cmd(c))
         case InCommand(c, OutFile) => state == STDOUT && current_command == Some(Cmd(c))
         case InCommand(c, ErrFile) => state == STDERR && current_command == Some(Cmd(c))
         case InCommand(c, InFile) => state == STDIN && current_command == Some(Cmd(c))
    }

    method CommitCommand() returns (ok: bool)
      modifies this
      ensures ok <==> old(current_command).Some?
      ensures ok ==> pipeline == old(pipeline) + [old(current_command).value] && current_command == None
      ensures !ok ==> pipeline == old(pipeline) && current_command == old(current_command)
    {
      if current_command == None {
        return false;
      }
      pipeline := pipeline + [current_command.value];
      current_command := None;
      return true;
    }

    method Parse(command: seq<string>) returns (r: Result<seq<Node>, Error>)
      modifies this
      ensures r == ShellParse.Parse(command)
      ensures r.Ok? ==> pipeline == r.value && current_command == None
    {
      current_command, pipeline := None, [];
      var tokens := command;
      var state := BEGIN;
      var env_vars: map<string, string> := map[];
      ghost var s := START;
      while tokens != []
        invariant Represents(state, env_vars, s)
        invariant ParseFrom(s, tokens) == ShellParse.Parse(command)
        decreases |tokens|
      {
        var token := tokens[0];
        tokens := tokens[1..];
        ghost var next := Next(s, token);
        var failed;
        state, env_vars, failed := OneToken(state, env_vars, token, s);
        if failed {
          return Err(AssertionError);
        }
        s := next.value;
      }
      var ok := CommitCommand();
      if !ok {
        return Err(AssertionError);
      }
      return Ok(pipeline);
    }

    /** The loop body: one token. */
    method OneToken(state0: State, env0: map<string, string>, token: string, ghost s: Parser)
      returns (state: State, env_vars: map<string, string>, failed: bool)
      requires Represents(state0, env0, s)
      modifies this
      ensures failed <==> Next(s, token).Err?
      ensures !failed ==> Represents(state, env_vars, Next(s, token).value)
    {
      state, env_vars, failed := state0, env0, false;
      match state0
      case BEGIN =>
        var env_var_match := EnvMatch(token);
        if env_var_match.Some? {
          env_vars := env_vars[env_var_match.value.0 := env_var_match.value.1];
        } else if token == "cd" {
          current_command := Some(Chdir(None));
          failed := env_vars != map[];
          state := CHDIR;
        } else {
          current_command := Some(Cmd(NewCommand(token, env_vars)));
          env_vars := map[];
          state := COMMAND;
        }
      case COMMAND =>
        state, failed := CommandToken(token);
      case CHDIR =>
        if token == "&&" {
          var ok := CommitCommand();
          pipeline := pipeline + [And];
          state := BEGIN;
        } else if current_command.value.dir.Some? {
          failed := true;
        } else {
          current_command := Some(Chdir(Some(token)));
        }
      case STDOUT =>
        var c := current_command.value.command;
        failed := c.stdout != Inherited;
        current_command := Some(Cmd(c.(stdout := ToFile(token))));
        state := COMMAND;
      case STDERR =>
        var c := current_command.value.command;
        failed := c.stderr != Inherited;
        current_command := Some(Cmd(c.(stderr := ToFile(token))));
        state := COMMAND;
      case STDIN =>
        var c := current_command.value.command;
        failed := c.stdin != None;
        current_command := Some(Cmd(c.(stdin := Some(token))));
        state := COMMAND;
    }

    method CommandToken(token: string) returns (state: State, failed: bool)
      requires current_command.Some? && current_command.value.Cmd?
      modifies this
      ensures
        var r := NextWord(Parser(InCommand(old(current_command).value.command, Word), map[], old(pipeline)),
                          old(current_command).value.command, token);
        (failed <==> r.Err?) && (r.Ok? ==> Represents(state, map[], r.value))
    {
      state, failed := COMMAND, false;
      var c := current_command.value.command;
      if token == ">" {
        state := STDOUT;
      } else if token == "2>" {
        state := STDERR;
      } else if token == "2>&1" {
        failed := c.stderr != Inherited;
        current_command := Some(Cmd(c.(stderr := ToStdout)));
      } else if token == "<" {
        state := STDIN;
      } else if token == "|" {
        failed := c.stdout != Inherited;
        current_command := Some(Cmd(c.(stdout := ToPipe)));
        var ok := CommitCommand();
        pipeline := pipeline + [Pipe];
        state := BEGIN;
      } else if token == "&&" {
        var ok := CommitCommand();
        pipeline := pipeline + [And];
        state := BEGIN;
      } else if token == "||" {
        var ok := CommitCommand();
        pipeline := pipeline + [Or];
        state := BEGIN;
      } else {
        current_command := Some(Cmd(c.(argv := c.argv + [token])));
      }
    }
  }
}
