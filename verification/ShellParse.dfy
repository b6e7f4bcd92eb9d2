/** waf-tools/shellcmd.py: the nodes of a pipeline, and `Pipeline.parse`. */
module ShellParse {
  import opened Wrappers

  /** Where a command's stdout or stderr goes; `Command.PIPE` and `Command.STDOUT` in the source. */
  datatype Target = Inherited | ToFile(name: string) | ToPipe | ToStdout

  /** `env_vars` is empty where the source has None. */
  datatype Command = Command(name: string, argv: seq<string>, stdin: Option<string>, stdout: Target, stderr: Target,
                             env_vars: map<string, string>)

  datatype Node = Pipe | And | Or | Cmd(command: Command) | Chdir(dir: Option<string>)

  predicate IsOp(n: Node) {
    n.Pipe? || n.And? || n.Or?
  }

  // ---------- environment assignments ----------

  predicate IsWordChar(c: char) {
    'a' <= c <= 'z' || 'A' <= c <= 'Z' || '0' <= c <= '9' || c == '_'
  }

  /** The characters that `\s` matches. */
  predicate IsSpace(c: char) {
    var n := c as int;
    || 0x09 <= n <= 0x0D || 0x1C <= n <= 0x20 || n == 0x85 || n == 0xA0 || n == 0x1680 || 0x2000 <= n <= 0x200A
    || n == 0x2028 || n == 0x2029 || n == 0x202F || n == 0x205F || n == 0x3000
  }

  predicate IsName(s: string) {
    s != [] && forall i :: 0 <= i < |s| ==> IsWordChar(s[i])
  }

  predicate IsValue(s: string) {
    s != [] && forall i :: 0 <= i < |s| ==> !IsSpace(s[i])
  }

  function NameLength(s: string): (n: nat)
    ensures n <= |s| && (forall i :: 0 <= i < n ==> IsWordChar(s[i])) && (n < |s| ==> !IsWordChar(s[n]))
  {
    if s == [] || !IsWordChar(s[0]) then 0 else 1 + NameLength(s[1..])
  }

  /** The match of `^([a-zA-Z0-9_]+)=(\S+)$`; the end anchor also matches before a final newline. */
  function EnvMatch(token: string): (m: Option<(string, string)>)
    ensures m.Some? ==> IsName(m.value.0) && IsValue(m.value.1)
    ensures m.Some? ==> token == m.value.0 + "=" + m.value.1 || token == m.value.0 + "=" + m.value.1 + "\n"
  {
    var n := NameLength(token);
    if n == 0 || n == |token| || token[n] != '=' then None
    else
      var rest := token[n + 1..];
      var value := if rest != [] && rest[|rest| - 1] == '\n' then rest[..|rest| - 1] else rest;
      if IsValue(value) then Some((token[..n], value)) else None
  }

  function Assignment(key: string, value: string): string {
    key + "=" + value
  }

  /** The matcher accepts an assignment, with or without a final newline. */
  lemma EnvMatchAssignment(key: string, value: string)
    requires IsName(key) && IsValue(value)
    ensures EnvMatch(Assignment(key, value)) == Some((key, value))
  {
    var token := Assignment(key, value);
    NameThenEquals(key, value);
    assert token[|key|] == '=';
    assert token[|key| + 1..] == value && token[..|key|] == key;
    assert !IsSpace(value[|value| - 1]);
    assert IsSpace('\n');
  }

  lemma EnvMatchNewline(key: string, value: string)
    requires IsName(key) && IsValue(value)
    ensures EnvMatch(Assignment(key, value) + "\n") == Some((key, value))
  {
    var token := Assignment(key, value) + "\n";
    NameThenEquals(key, value + "\n");
    assert token == key + "=" + (value + "\n");
    assert token[|key|] == '=';
    assert token[|key| + 1..] == value + "\n" && token[..|key|] == key;
    assert (value + "\n")[..|value|] == value;
  }

  lemma {:induction false} NameThenEquals(key: string, rest: string)
    requires forall i :: 0 <= i < |key| ==> IsWordChar(key[i])
    ensures NameLength(key + "=" + rest) == |key|
  {
    if key != [] {
      NameThenEquals(key[1..], rest);
      assert (key + "=" + rest)[1..] == key[1..] + "=" + rest;
    }
  }

  // ---------- the token state machine ----------

  /** What the next token of a command is taken for: the source's COMMAND, STDOUT, STDERR and STDIN. */
  datatype Expecting = Word | OutFile | ErrFile | InFile

  /** The current command, together with the state it is parsed in. */
  datatype Current = Begin | InCommand(command: Command, expecting: Expecting) | InChdir(dir: Option<string>)

  datatype Parser = Parser(current: Current, env_vars: map<string, string>, pipeline: seq<Node>)

  datatype Error = AssertionError

  function NewCommand(name: string, env_vars: map<string, string>): Command {
    Command(name, [name], None, Inherited, Inherited, env_vars)
  }

  /** `_commit_command` followed by an operator. */
  function Commit(s: Parser, node: Node, op: Node): Parser {
    Parser(Begin, s.env_vars, s.pipeline + [node, op])
  }

  /** The tokens with a meaning of their own inside a command. */
  predicate Special(token: string) {
    token in [">", "2>", "2>&1", "<", "|", "&&", "||"]
  }

  function Next(s: Parser, token: string): Result<Parser, Error> {
    match s.current
    case Begin => NextAtBegin(s, token)
    case InChdir(dir) =>
      if token == "&&" then Ok(Commit(s, Chdir(dir), And))
      else if dir.Some? then Err(AssertionError)
      else Ok(s.(current := InChdir(Some(token))))
    case InCommand(c, Word) => NextWord(s, c, token)
    case InCommand(c, OutFile) =>
      if c.stdout != Inherited then Err(AssertionError)
      else Ok(s.(current := InCommand(c.(stdout := ToFile(token)), Word)))
    case InCommand(c, ErrFile) =>
      if c.stderr != Inherited then Err(AssertionError)
      else Ok(s.(current := InCommand(c.(stderr := ToFile(token)), Word)))
    case InCommand(c, InFile) =>
      if c.stdin != None then Err(AssertionError) else Ok(s.(current := InCommand(c.(stdin := Some(token)), Word)))
  }

  function NextAtBegin(s: Parser, token: string): Result<Parser, Error> {
    match EnvMatch(token)
    case Some((key, value)) => Ok(s.(env_vars := s.env_vars[key := value]))
    case None =>
      if token != "cd" then Ok(s.(current := InCommand(NewCommand(token, s.env_vars), Word), env_vars := map[]))
      else if s.env_vars != map[] then Err(AssertionError)
      else Ok(s.(current := InChdir(None)))
  }

  function NextWord(s: Parser, c: Command, token: string): Result<Parser, Error> {
    if token == ">" then Ok(s.(current := InCommand(c, OutFile)))
    else if token == "2>" then Ok(s.(current := InCommand(c, ErrFile)))
    else if token == "2>&1" then
      if c.stderr != Inherited then Err(AssertionError) else Ok(s.(current := InCommand(c.(stderr := ToStdout), Word)))
    else if token == "<" then Ok(s.(current := InCommand(c, InFile)))
    else if token == "|" then
      if c.stdout != Inherited then Err(AssertionError) else Ok(Commit(s, Cmd(c.(stdout := ToPipe)), Pipe))
    else if token == "&&" then Ok(Commit(s, Cmd(c), And))
    else if token == "||" then Ok(Commit(s, Cmd(c), Or))
    else Ok(s.(current := InCommand(c.(argv := c.argv + [token]), Word)))
  }

  /** The final `_commit_command`; whatever was still expected is forgotten. */
  function Finish(s: Parser): Result<seq<Node>, Error> {
    match s.current
    case Begin => Err(AssertionError)
    case InCommand(c, _) => Ok(s.pipeline + [Cmd(c)])
    case InChdir(dir) => Ok(s.pipeline + [Chdir(dir)])
  }

  function ParseFrom(s: Parser, tokens: seq<string>): Result<seq<Node>, Error>
    decreases |tokens|
  {
    if tokens == [] then Finish(s)
    else
      var r := Next(s, tokens[0]);
      if r.Ok? then ParseFrom(r.value, tokens[1..]) else Err(r.error)
  }

  const START := Parser(Begin, map[], [])

  function Parse(tokens: seq<string>): Result<seq<Node>, Error> {
    ParseFrom(START, tokens)
  }

  lemma ParseStep(s: Parser, token: string, rest: seq<string>)
    requires Next(s, token).Ok?
    ensures ParseFrom(s, [token] + rest) == ParseFrom(Next(s, token).value, rest)
  {
    assert ([token] + rest)[1..] == rest;
  }

  // ---------- the pipelines parsing can produce ----------

  predicate CommandOk(c: Command) {
    && EnvMatch(c.name) == None && c.name != "cd"
    && c.argv != [] && c.argv[0] == c.name
    && (forall i :: 1 <= i < |c.argv| ==> !Special(c.argv[i]))
    && !c.stdout.ToStdout? && !c.stderr.ToPipe?
    && (forall key :: key in c.env_vars ==> IsName(key) && IsValue(c.env_vars[key]))
  }

  /** A command writes to a pipe exactly when a pipe follows; only `&&` can follow a `cd`. */
  predicate NodeOk(n: Node, following: Option<Node>) {
    match n
    case Cmd(c) => CommandOk(c) && (c.stdout == ToPipe <==> following == Some(Pipe))
    case Chdir(dir) => dir != Some("&&") && (following == None || following == Some(And))
    case _ => false
  }

  /** Position i holds a node or an operator, in turns. */
  predicate PlaceOk(p: seq<Node>, i: nat)
    requires i < |p|
  {
    if i % 2 == 0 then NodeOk(p[i], if i + 1 < |p| then Some(p[i + 1]) else None) else IsOp(p[i])
  }

  predicate WellFormed(p: seq<Node>) {
    |p| % 2 == 1 && forall i :: 0 <= i < |p| ==> PlaceOk(p, i)
  }

  // ---------- rendering ----------

  /** The order in which assignments are written: any function that lists the variables of an environment. */
  type Order = map<string, string> -> seq<string>

  ghost predicate Lists(order: Order) {
    forall env_vars, key {:trigger key in order(env_vars)} :: key in order(env_vars) <==> key in env_vars
  }

  function EnvTokens(keys: seq<string>, env_vars: map<string, string>): seq<string>
    requires forall key :: key in keys ==> key in env_vars
  {
    if keys == [] then []
    else EnvTokens(keys[..|keys| - 1], env_vars) + [Assignment(keys[|keys| - 1], env_vars[keys[|keys| - 1]])]
  }

  function StdinTokens(t: Option<string>): seq<string> {
    match t case Some(name) => ["<", name] case None => []
  }

  function StdoutTokens(t: Target): seq<string> {
    match t case ToFile(name) => [">", name] case _ => []
  }

  function StderrTokens(t: Target): seq<string> {
    match t case ToFile(name) => ["2>", name] case ToStdout => ["2>&1"] case _ => []
  }

  function Redirections(c: Command): seq<string> {
    StdinTokens(c.stdin) + StdoutTokens(c.stdout) + StderrTokens(c.stderr)
  }

  function NodeTokens(n: Node, order: Order): seq<string>
    requires n.Cmd? ==> forall key :: key in order(n.command.env_vars) ==> key in n.command.env_vars
  {
    match n
    case Cmd(c) => EnvTokens(order(c.env_vars), c.env_vars) + c.argv + Redirections(c)
    case Chdir(dir) => if dir.Some? then ["cd", dir.value] else ["cd"]
    case Pipe => ["|"]
    case And => ["&&"]
    case Or => ["||"]
  }

  /** The canonical token list of a pipeline: assignments, words, redirections, operators. */
  ghost function Render(p: seq<Node>, order: Order): seq<string>
    requires Lists(order)
  {
    if p == [] then [] else NodeTokens(p[0], order) + Render(p[1..], order)
  }
}
