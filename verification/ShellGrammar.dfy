/** waf-tools/shellcmd.py: the token lists that `Pipeline.parse` accepts, given by a grammar. */
module ShellGrammar {
  import opened Wrappers
  import opened Sequences
  import opened ShellParse

  // ---------- the grammar ----------

  /** A word of a command, or a redirection. */
  datatype Item = Arg(word: string) | InName(name: string) | OutName(name: string) | ErrName(name: string) | ErrToOut

  /** `cut` is a redirection whose file name is missing; that can only be the end of all tokens. */
  datatype Phrase =
    | Com(assignments: seq<string>, name: string, items: seq<Item>, cut: seq<string>)
    | Cd(dir: Option<string>)

  datatype Sentence = Last(phrase: Phrase) | More(phrase: Phrase, op: Node, rest: Sentence)

  function ItemTokens(item: Item): seq<string> {
    match item
    case Arg(word) => [word]
    case InName(name) => ["<", name]
    case OutName(name) => [">", name]
    case ErrName(name) => ["2>", name]
    case ErrToOut => ["2>&1"]
  }

  function ItemsTokens(items: seq<Item>): seq<string> {
    if items == [] then [] else ItemTokens(items[0]) + ItemsTokens(items[1..])
  }

  function PhraseTokens(phrase: Phrase): seq<string> {
    match phrase
    case Com(assignments, name, items, cut) => assignments + ([name] + (ItemsTokens(items) + cut))
    case Cd(dir) => if dir.Some? then ["cd", dir.value] else ["cd"]
  }

  function OpToken(op: Node): string {
    match op case Pipe => "|" case And => "&&" case _ => "||"
  }

  function Tokens(d: Sentence): seq<string> {
    match d
    case Last(phrase) => PhraseTokens(phrase)
    case More(phrase, op, rest) => PhraseTokens(phrase) + ([OpToken(op)] + Tokens(rest))
  }

  predicate IsIn(item: Item) { item.InName? }
  predicate IsOut(item: Item) { item.OutName? }
  predicate IsErr(item: Item) { item.ErrName? || item.ErrToOut? }

  predicate IsSpecialWord(item: Item) { item.Arg? && Special(item.word) }

  ghost predicate AtMostOnce(items: seq<Item>, kind: Item -> bool) {
    forall i, j :: 0 <= i < j < |items| ==> !(kind(items[i]) && kind(items[j]))
  }

  ghost predicate Never(items: seq<Item>, kind: Item -> bool) {
    forall i :: 0 <= i < |items| ==> !kind(items[i])
  }

  /** Words have no meaning of their own, and each stream is redirected once at the most. */
  ghost predicate ItemsValid(items: seq<Item>) {
    && Never(items, IsSpecialWord)
    && AtMostOnce(items, IsIn) && AtMostOnce(items, IsOut) && AtMostOnce(items, IsErr)
  }

  predicate AllAssign(assignments: seq<string>) {
    forall i :: 0 <= i < |assignments| ==> EnvMatch(assignments[i]).Some?
  }

  ghost predicate PhraseValid(phrase: Phrase, following: Option<Node>) {
    match phrase
    case Com(assignments, name, items, cut) =>
      && AllAssign(assignments)
      && EnvMatch(name) == None && name != "cd" && ItemsValid(items)
      && (following == Some(Pipe) ==> Never(items, IsOut))
      && (if following == None then cut in [[], ["<"], [">"], ["2>"]] else cut == [])
    case Cd(dir) => dir != Some("&&") && (following == None || following == Some(And))
  }

  ghost predicate Valid(d: Sentence) {
    match d
    case Last(phrase) => PhraseValid(phrase, None)
    case More(phrase, op, rest) => IsOp(op) && PhraseValid(phrase, Some(op)) && Valid(rest)
  }

  // ---------- what it stands for ----------

  function With(c: Command, item: Item): Command {
    match item
    case Arg(word) => c.(argv := c.argv + [word])
    case InName(name) => c.(stdin := Some(name))
    case OutName(name) => c.(stdout := ToFile(name))
    case ErrName(name) => c.(stderr := ToFile(name))
    case ErrToOut => c.(stderr := ToStdout)
  }

  function WithAll(c: Command, items: seq<Item>): Command
    decreases |items|
  {
    if items == [] then c else WithAll(With(c, items[0]), items[1..])
  }

  /** The variables assigned, later ones winning. */
  function Assigned(env_vars: map<string, string>, assignments: seq<string>): map<string, string>
    requires AllAssign(assignments)
    decreases |assignments|
  {
    if assignments == [] then env_vars
    else
      var (key, value) := EnvMatch(assignments[0]).value;
      Assigned(env_vars[key := value], assignments[1..])
  }

  function NodeOf(env_vars: map<string, string>, phrase: Phrase, piped: bool): Node
    requires phrase.Com? ==> AllAssign(phrase.assignments)
  {
    match phrase
    case Com(assignments, name, items, _) =>
      var c := WithAll(NewCommand(name, Assigned(env_vars, assignments)), items);
      Cmd(if piped then c.(stdout := ToPipe) else c)
    case Cd(dir) => Chdir(dir)
  }

  ghost function Nodes(env_vars: map<string, string>, d: Sentence): seq<Node>
    requires Valid(d)
  {
    match d
    case Last(phrase) => [NodeOf(env_vars, phrase, false)]
    case More(phrase, op, rest) => [NodeOf(env_vars, phrase, op == Pipe), op] + Nodes(map[], rest)
  }

  // ---------- redirected once ----------

  predicate ItemOk(c: Command, item: Item) {
    match item
    case Arg(_) => !IsSpecialWord(item)
    case InName(_) => c.stdin == None
    case OutName(_) => c.stdout == Inherited
    case _ => c.stderr == Inherited
  }

  predicate ItemsOk(c: Command, items: seq<Item>)
    decreases |items|
  {
    items == [] || (ItemOk(c, items[0]) && ItemsOk(With(c, items[0]), items[1..]))
  }

  lemma FirstOnce(items: seq<Item>, kind: Item -> bool)
    requires items != []
    ensures AtMostOnce(items, kind) <==>
      AtMostOnce(items[1..], kind) && (kind(items[0]) ==> Never(items[1..], kind))
    ensures Never(items, kind) <==> !kind(items[0]) && Never(items[1..], kind)
  {
    assert items == [items[0]] + items[1..];
  }

  lemma NeverStep(items: seq<Item>, kind: Item -> bool)
    requires items != []
    ensures Never(items, kind) <==> !kind(items[0]) && Never(items[1..], kind)
  {
    assert items == [items[0]] + items[1..];
  }

  /** The streams that are redirected already are not redirected again. */
  ghost predicate Fits(c: Command, items: seq<Item>) {
    && (c.stdin != None ==> Never(items, IsIn))
    && (c.stdout != Inherited ==> Never(items, IsOut))
    && (c.stderr != Inherited ==> Never(items, IsErr))
  }

  lemma FitsStep(c: Command, items: seq<Item>)
    requires items != []
    ensures ItemsValid(items) && Fits(c, items) <==>
      ItemOk(c, items[0]) && ItemsValid(items[1..]) && Fits(With(c, items[0]), items[1..])
  {
    NeverStep(items, IsSpecialWord);
    FirstOnce(items, IsIn);
    FirstOnce(items, IsOut);
    FirstOnce(items, IsErr);
  }

  /** Taking the items one by one finds every stream free exactly if each is redirected once at the most. */
  lemma {:induction false} ItemsOkIffValid(c: Command, items: seq<Item>)
    ensures ItemsOk(c, items) <==> ItemsValid(items) && Fits(c, items)
    ensures WithAll(c, items).stdout == Inherited <==> c.stdout == Inherited && Never(items, IsOut)
    decreases |items|
  {
    if items != [] {
      ItemsOkIffValid(With(c, items[0]), items[1..]);
      FitsStep(c, items);
      NeverStep(items, IsOut);
    }
  }

  // ---------- whatever the grammar gives is parsed ----------

  /** The parser inside a command, or between two. */
  function Inside(c: Command, acc: seq<Node>): Parser {
    Parser(InCommand(c, Word), map[], acc)
  }

  lemma TakeOne(s: Parser, tokens: seq<string>, a: string, rest: seq<string>)
    requires tokens == [a] + rest
    ensures ParseFrom(s, tokens) == if Next(s, a).Ok? then ParseFrom(Next(s, a).value, rest) else Err(AssertionError)
  {
    assert tokens[0] == a && tokens[1..] == rest;
  }

  lemma TakeTwo(s: Parser, t: Parser, tokens: seq<string>, a: string, b: string, rest: seq<string>)
    requires tokens == [a, b] + rest && Next(s, a) == Ok(t)
    ensures ParseFrom(s, tokens) == if Next(t, b).Ok? then ParseFrom(Next(t, b).value, rest) else Err(AssertionError)
  {
    assert [a, b] == [a] + [b];
    Regroup3([a], [b], rest);
    TakeOne(s, tokens, a, [b] + rest);
    TakeOne(t, [b] + rest, b, rest);
  }

  lemma ItemParses(c: Command, acc: seq<Node>, item: Item, rest: seq<string>)
    requires ItemOk(c, item)
    ensures ParseFrom(Inside(c, acc), ItemTokens(item) + rest) == ParseFrom(Inside(With(c, item), acc), rest)
  {
    var s, tokens := Inside(c, acc), ItemTokens(item) + rest;
    match item
    case Arg(word) => TakeOne(s, tokens, word, rest);
    case InName(name) => TakeTwo(s, s.(current := InCommand(c, InFile)), tokens, "<", name, rest);
    case OutName(name) => TakeTwo(s, s.(current := InCommand(c, OutFile)), tokens, ">", name, rest);
    case ErrName(name) => TakeTwo(s, s.(current := InCommand(c, ErrFile)), tokens, "2>", name, rest);
    case ErrToOut => TakeOne(s, tokens, "2>&1", rest);
  }

  lemma {:induction false} ItemsParse(c: Command, acc: seq<Node>, items: seq<Item>, rest: seq<string>)
    requires ItemsOk(c, items)
    ensures ParseFrom(Inside(c, acc), ItemsTokens(items) + rest) == ParseFrom(Inside(WithAll(c, items), acc), rest)
    decreases |items|
  {
    if items == [] {
      assert ItemsTokens(items) + rest == rest;
    } else {
      var tail := ItemsTokens(items[1..]) + rest;
      assert ItemsTokens(items) + rest == ItemTokens(items[0]) + tail;
      ItemParses(c, acc, items[0], tail);
      ItemsParse(With(c, items[0]), acc, items[1..], rest);
    }
  }

  lemma CutParses(c: Command, acc: seq<Node>, cut: seq<string>)
    requires cut in [[], ["<"], [">"], ["2>"]]
    ensures ParseFrom(Inside(c, acc), cut) == Ok(acc + [Cmd(c)])
  {
    if cut != [] {
      TakeOne(Inside(c, acc), cut, cut[0], []);
    }
  }

  function Piped(c: Command, op: Node): Command {
    if op == Pipe then c.(stdout := ToPipe) else c
  }

  lemma OpParses(c: Command, acc: seq<Node>, op: Node, rest: seq<string>)
    requires IsOp(op) && (op == Pipe ==> c.stdout == Inherited)
    ensures ParseFrom(Inside(c, acc), [OpToken(op)] + rest)
      == ParseFrom(Parser(Begin, map[], acc + [Cmd(Piped(c, op)), op]), rest)
  {
    TakeOne(Inside(c, acc), [OpToken(op)] + rest, OpToken(op), rest);
  }

  lemma FirstAssignment(assignments: seq<string>, rest: seq<string>)
    requires assignments != []
    ensures assignments + rest == [assignments[0]] + (assignments[1..] + rest)
  {
  }

  lemma {:induction false} AssignmentsParse(env_vars: map<string, string>, acc: seq<Node>, assignments: seq<string>,
                                            rest: seq<string>)
    requires AllAssign(assignments)
    ensures ParseFrom(Parser(Begin, env_vars, acc), assignments + rest)
      == ParseFrom(Parser(Begin, Assigned(env_vars, assignments), acc), rest)
    decreases |assignments|
  {
    if assignments == [] {
      NoAssignments(assignments, rest);
    } else {
      var (key, value) := EnvMatch(assignments[0]).value;
      FirstAssignment(assignments, rest);
      TakeOne(Parser(Begin, env_vars, acc), assignments + rest, assignments[0], assignments[1..] + rest);
      AssignmentsParse(env_vars[key := value], acc, assignments[1..], rest);
    }
  }

  lemma CommandParses(env_vars: map<string, string>, acc: seq<Node>, phrase: Phrase, following: Option<Node>,
                      rest: seq<string>)
    requires phrase.Com? && PhraseValid(phrase, following)
    ensures
      var c := NewCommand(phrase.name, Assigned(env_vars, phrase.assignments));
      && ItemsOk(c, phrase.items) && (following == Some(Pipe) ==> WithAll(c, phrase.items).stdout == Inherited)
      && var tail := [phrase.name] + (ItemsTokens(phrase.items) + rest);
        ParseFrom(Parser(Begin, env_vars, acc), phrase.assignments + tail)
          == ParseFrom(Inside(WithAll(c, phrase.items), acc), rest)
  {
    var c := NewCommand(phrase.name, Assigned(env_vars, phrase.assignments));
    var tail := ItemsTokens(phrase.items) + rest;
    AssignmentsParse(env_vars, acc, phrase.assignments, [phrase.name] + tail);
    TakeOne(Parser(Begin, c.env_vars, acc), [phrase.name] + tail, phrase.name, tail);
    ItemsOkIffValid(c, phrase.items);
    ItemsParse(c, acc, phrase.items, rest);
  }

  lemma CdParses(acc: seq<Node>, dir: Option<string>, rest: seq<string>)
    requires dir != Some("&&")
    ensures ParseFrom(Parser(Begin, map[], acc), PhraseTokens(Cd(dir)) + rest)
      == ParseFrom(Parser(InChdir(dir), map[], acc), rest)
  {
    var s, tokens := Parser(Begin, map[], acc), PhraseTokens(Cd(dir)) + rest;
    CdIsNoAssignment();
    if dir.Some? {
      TakeTwo(s, Parser(InChdir(None), map[], acc), tokens, "cd", dir.value, rest);
    } else {
      TakeOne(s, tokens, "cd", rest);
    }
  }

  lemma CdIsNoAssignment()
    ensures EnvMatch("cd") == None
  {
    assert "cd"[1..] == "d" && "d"[1..] == "";
  }

  /** A list that the grammar gives is parsed to what it stands for. */
  lemma {:induction false} SentenceParses(env_vars: map<string, string>, acc: seq<Node>, d: Sentence)
    requires Valid(d) && (d.phrase.Cd? ==> env_vars == map[])
    ensures ParseFrom(Parser(Begin, env_vars, acc), Tokens(d)) == Ok(acc + Nodes(env_vars, d))
    decreases d
  {
    match d
    case Last(phrase) => LastParses(env_vars, acc, phrase);
    case More(phrase, op, rest) =>
      SentenceParses(map[], acc + [NodeOf(env_vars, phrase, op == Pipe), op], rest);
      MoreParses(env_vars, acc, phrase, op, Tokens(rest));
      assert acc + [NodeOf(env_vars, phrase, op == Pipe), op] + Nodes(map[], rest) == acc + Nodes(env_vars, d);
  }

  lemma NothingCut(a: seq<string>, b: seq<string>, c: seq<string>, cut: seq<string>, tail: seq<string>)
    requires cut == []
    ensures a + (b + (c + cut)) + tail == a + (b + (c + tail))
  {
    assert c + cut == c;
    Regroup3(b, c, tail);
    Regroup3(a, b + c, tail);
  }

  lemma LastParses(env_vars: map<string, string>, acc: seq<Node>, phrase: Phrase)
    requires PhraseValid(phrase, None) && (phrase.Cd? ==> env_vars == map[])
    ensures ParseFrom(Parser(Begin, env_vars, acc), PhraseTokens(phrase)) == Ok(acc + [NodeOf(env_vars, phrase, false)])
  {
    if phrase.Com? {
      CommandParses(env_vars, acc, phrase, None, phrase.cut);
      var c := NewCommand(phrase.name, Assigned(env_vars, phrase.assignments));
      CutParses(WithAll(c, phrase.items), acc, phrase.cut);
    } else {
      CdParses(acc, phrase.dir, []);
      assert PhraseTokens(phrase) + [] == PhraseTokens(phrase);
    }
  }

  lemma MoreParses(env_vars: map<string, string>, acc: seq<Node>, phrase: Phrase, op: Node, rest: seq<string>)
    requires IsOp(op) && PhraseValid(phrase, Some(op)) && (phrase.Cd? ==> env_vars == map[])
    ensures ParseFrom(Parser(Begin, env_vars, acc), PhraseTokens(phrase) + ([OpToken(op)] + rest))
      == ParseFrom(Parser(Begin, map[], acc + [NodeOf(env_vars, phrase, op == Pipe), op]), rest)
  {
    var tail := [OpToken(op)] + rest;
    if phrase.Com? {
      var c := WithAll(NewCommand(phrase.name, Assigned(env_vars, phrase.assignments)), phrase.items);
      CommandParses(env_vars, acc, phrase, Some(op), tail);
      OpParses(c, acc, op, rest);
      NothingCut(phrase.assignments, [phrase.name], ItemsTokens(phrase.items), phrase.cut, tail);
    } else {
      CdParses(acc, phrase.dir, tail);
      TakeOne(Parser(InChdir(phrase.dir), map[], acc), tail, "&&", rest);
    }
  }

  // ---------- whatever is parsed is given by the grammar ----------

  /** What can come after the items of a command: nothing, a redirection cut off, or an operator and the rest. */
  datatype Ending = End(cut: seq<string>) | Onward(op: Node, rest: Sentence)

  function EndingTokens(ending: Ending): seq<string> {
    match ending
    case End(cut) => cut
    case Onward(op, rest) => [OpToken(op)] + Tokens(rest)
  }

  ghost predicate EndingValid(c: Command, ending: Ending) {
    match ending
    case End(cut) => cut in [[], ["<"], [">"], ["2>"]]
    case Onward(op, rest) => IsOp(op) && Valid(rest) && (op == Pipe ==> c.stdout == Inherited)
  }

  ghost predicate Derived(c: Command, tokens: seq<string>, items: seq<Item>, ending: Ending) {
    && ItemsOk(c, items) && EndingValid(WithAll(c, items), ending)
    && tokens == ItemsTokens(items) + EndingTokens(ending)
  }

  lemma OneMoreItem(c: Command, tokens: seq<string>, item: Item, rest: seq<string>, items: seq<Item>, ending: Ending)
    requires ItemOk(c, item) && Derived(With(c, item), rest, items, ending) && tokens == ItemTokens(item) + rest
    ensures Derived(c, tokens, [item] + items, ending)
  {
    FirstItem(item, items);
    Regroup3(ItemTokens(item), ItemsTokens(items), EndingTokens(ending));
    assert ([item] + items)[1..] == items;
  }

  lemma FirstItem(item: Item, items: seq<Item>)
    ensures ItemsTokens([item] + items) == ItemTokens(item) + ItemsTokens(items)
  {
    assert ([item] + items)[1..] == items;
  }

  lemma {:induction false} DeriveItems(c: Command, acc: seq<Node>, tokens: seq<string>)
    returns (items: seq<Item>, ending: Ending)
    requires ParseFrom(Inside(c, acc), tokens).Ok?
    ensures Derived(c, tokens, items, ending)
    decreases |tokens|, 1
  {
    if |tokens| == 0 || (|tokens| == 1 && tokens[0] in ["<", ">", "2>"]) {
      items, ending := [], End(tokens);
      assert tokens == [] || tokens == [tokens[0]];
    } else if tokens[0] in ["|", "&&", "||"] {
      items, ending := DeriveOp(c, acc, tokens);
    } else {
      var item, rest := TakeItem(c, acc, tokens);
      items, ending := DeriveItems(With(c, item), acc, rest);
      OneMoreItem(c, tokens, item, rest, items, ending);
      items := [item] + items;
    }
  }

  lemma TakeItem(c: Command, acc: seq<Node>, tokens: seq<string>) returns (item: Item, rest: seq<string>)
    requires |tokens| > 0 && ParseFrom(Inside(c, acc), tokens).Ok? && tokens[0] !in ["|", "&&", "||"]
    requires tokens[0] in ["<", ">", "2>"] ==> |tokens| > 1
    ensures ItemOk(c, item) && tokens == ItemTokens(item) + rest && |rest| < |tokens|
    ensures ParseFrom(Inside(With(c, item), acc), rest).Ok?
  {
    var s, token := Inside(c, acc), tokens[0];
    if token in ["<", ">", "2>"] {
      var name := tokens[1];
      rest := tokens[2..];
      assert tokens == [token, name] + rest;
      var state := if token == "<" then InFile else if token == ">" then OutFile else ErrFile;
      TakeTwo(s, s.(current := InCommand(c, state)), tokens, token, name, rest);
      item := if token == "<" then InName(name) else if token == ">" then OutName(name) else ErrName(name);
    } else {
      rest := tokens[1..];
      assert tokens == [token] + rest;
      TakeOne(s, tokens, token, rest);
      item := if token == "2>&1" then ErrToOut else Arg(token);
    }
  }

  lemma {:induction false} DeriveOp(c: Command, acc: seq<Node>, tokens: seq<string>)
    returns (items: seq<Item>, ending: Ending)
    requires |tokens| > 0 && ParseFrom(Inside(c, acc), tokens).Ok? && tokens[0] in ["|", "&&", "||"]
    ensures Derived(c, tokens, items, ending)
    decreases |tokens|, 0
  {
    var rest := tokens[1..];
    var op := if tokens[0] == "|" then Pipe else if tokens[0] == "&&" then And else Or;
    assert tokens == [tokens[0]] + rest;
    TakeOne(Inside(c, acc), tokens, tokens[0], rest);
    var d := Derive(map[], acc + [Cmd(Piped(c, op)), op], rest);
    items, ending := [], Onward(op, d);
    assert ItemsTokens([]) + EndingTokens(ending) == tokens;
  }

  /** Every list that is parsed is given by the grammar. */
  lemma {:induction false} Derive(env_vars: map<string, string>, acc: seq<Node>, tokens: seq<string>)
    returns (d: Sentence)
    requires ParseFrom(Parser(Begin, env_vars, acc), tokens).Ok?
    ensures Valid(d) && (d.phrase.Cd? ==> env_vars == map[]) && Tokens(d) == tokens
    decreases |tokens|, 1
  {
    var s, token, rest := Parser(Begin, env_vars, acc), tokens[0], tokens[1..];
    assert tokens == [token] + rest;
    TakeOne(s, tokens, token, rest);
    if EnvMatch(token).Some? {
      var (key, value) := EnvMatch(token).value;
      var d' := Derive(env_vars[key := value], acc, rest);
      assert key in env_vars[key := value];
      d := OneMoreAssignment(token, d');
    } else if token == "cd" {
      d := DeriveCd(acc, tokens);
    } else {
      var c := NewCommand(token, env_vars);
      var items, ending := DeriveItems(c, acc, rest);
      d := CommandSentence(c, items, ending);
    }
  }

  lemma OneMoreAssignment(token: string, d: Sentence) returns (longer: Sentence)
    requires EnvMatch(token).Some? && Valid(d) && d.phrase.Com?
    ensures Valid(longer) && longer.phrase.Com? && Tokens(longer) == [token] + Tokens(d)
  {
    var phrase := d.phrase.(assignments := [token] + d.phrase.assignments);
    PhraseOneMore(token, d.phrase);
    match d
    case Last(_) =>
      longer := Last(phrase);
      AssignsMore(token, d.phrase, None);
    case More(_, op, rest) =>
      longer := More(phrase, op, rest);
      AssignsMore(token, d.phrase, Some(op));
      Regroup3([token], PhraseTokens(d.phrase), [OpToken(op)] + Tokens(rest));
  }

  lemma AssignsMore(token: string, phrase: Phrase, following: Option<Node>)
    requires EnvMatch(token).Some? && phrase.Com? && PhraseValid(phrase, following)
    ensures PhraseValid(phrase.(assignments := [token] + phrase.assignments), following)
  {
  }

  lemma PhraseOneMore(token: string, phrase: Phrase)
    requires phrase.Com?
    ensures PhraseTokens(phrase.(assignments := [token] + phrase.assignments)) == [token] + PhraseTokens(phrase)
  {
    Regroup3([token], phrase.assignments, [phrase.name] + (ItemsTokens(phrase.items) + phrase.cut));
  }

  lemma CommandSentence(c: Command, items: seq<Item>, ending: Ending) returns (d: Sentence)
    requires c == NewCommand(c.name, c.env_vars) && EnvMatch(c.name) == None && c.name != "cd"
    requires ItemsOk(c, items) && EndingValid(WithAll(c, items), ending)
    ensures Valid(d) && d.phrase.Com? && Tokens(d) == [c.name] + (ItemsTokens(items) + EndingTokens(ending))
  {
    ItemsOkIffValid(c, items);
    match ending
    case End(cut) =>
      d := Last(Com([], c.name, items, cut));
      NoAssignments([], [c.name] + (ItemsTokens(items) + cut));
    case Onward(op, rest) =>
      d := More(Com([], c.name, items, []), op, rest);
      NothingCut([], [c.name], ItemsTokens(items), [], [OpToken(op)] + Tokens(rest));
      NoAssignments([], [c.name] + (ItemsTokens(items) + ([OpToken(op)] + Tokens(rest))));
  }

  lemma NoAssignments(none: seq<string>, tokens: seq<string>)
    requires none == []
    ensures none + tokens == tokens
  {
  }

  lemma {:induction false} DeriveCd(acc: seq<Node>, tokens: seq<string>) returns (d: Sentence)
    requires |tokens| > 0 && tokens[0] == "cd" && ParseFrom(Parser(Begin, map[], acc), tokens).Ok?
    ensures Valid(d) && d.phrase.Cd? && Tokens(d) == tokens
    decreases |tokens|, 0
  {
    var dir: Option<string> := if |tokens| > 1 && tokens[1] != "&&" then Some(tokens[1]) else None;
    var phrase, n := Cd(dir), if dir.Some? then 2 else 1;
    assert tokens == PhraseTokens(phrase) + tokens[n..];
    CdParses(acc, dir, tokens[n..]);
    if |tokens| == n {
      d := Last(phrase);
    } else {
      var rest := tokens[n + 1..];
      assert tokens[n..] == [tokens[n]] + rest;
      TakeOne(Parser(InChdir(dir), map[], acc), tokens[n..], tokens[n], rest);
      var d' := Derive(map[], acc + [Chdir(dir), And], rest);
      d := More(phrase, And, d');
    }
  }

  /** The grammar describes parsing: a list is accepted exactly if it has a derivation, which tells the result. */
  lemma ParseIffDerivation(tokens: seq<string>, p: seq<Node>)
    ensures Parse(tokens) == Ok(p) <==> exists d :: Valid(d) && Tokens(d) == tokens && Nodes(map[], d) == p
  {
    if Parse(tokens).Ok? {
      var d := Derive(map[], [], tokens);
      SentenceParses(map[], [], d);
      assert [] + Nodes(map[], d) == Nodes(map[], d);
    }
    forall d | Valid(d) && Tokens(d) == tokens
      ensures Parse(tokens) == Ok(Nodes(map[], d))
    {
      SentenceParses(map[], [], d);
      assert [] + Nodes(map[], d) == Nodes(map[], d);
    }
  }
}
