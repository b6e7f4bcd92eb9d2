/** How `Pipeline.run` reads a chain of `&&` and `||`, compared with POSIX. */
module ShellPosix {
  import opened Wrappers
  import opened ShellParse
  import opened ShellRun
  import opened ShellMeaning

  /** The operators of a chain; true stands for `&&`. */
  function Ops(chain: Chain): seq<bool> {
    match chain
    case AndThen(_, rest) => [true] + Ops(rest)
    case OrElse(_, rest) => [false] + Ops(rest)
    case _ => []
  }

  /** No `cd` in the chain lacks its directory or what follows it. */
  predicate Complete(chain: Chain) {
    match chain
    case Only(stage) => stage != []
    case AndThen(stage, rest) => stage != [] && Complete(rest)
    case OrElse(stage, rest) => stage != [] && Complete(rest)
    case Broken(_, _) => false
  }

  /** The positions of the commands that decide the stages. */
  function Deciders(chain: Chain): seq<nat>
    requires Complete(chain)
  {
    var own := [chain.stage[|chain.stage| - 1].node];
    if chain.Only? then own else own + Deciders(chain.rest)
  }

  lemma {:induction false} DecidersSize(chain: Chain)
    requires Complete(chain)
    ensures |Deciders(chain)| == |Ops(chain)| + 1
  {
    if !chain.Only? {
      DecidersSize(chain.rest);
    }
  }

  function Values(nodes: seq<nat>, status: nat -> int): (values: seq<int>)
    ensures |values| == |nodes| && forall i :: 0 <= i < |nodes| ==> values[i] == status(nodes[i])
  {
    if nodes == [] then [] else [status(nodes[0])] + Values(nodes[1..], status)
  }

  /** `a && (b || (c ...))`: an operator that does not proceed ends everything. */
  function RightNested(values: seq<int>, ops: seq<bool>): int
    requires |values| == |ops| + 1
    decreases |ops|
  {
    if ops == [] then values[0]
    else if ops[0] == (values[0] == 0) then RightNested(values[1..], ops[1..])
    else values[0]
  }

  /** `((a && b) || c) ...`: an operator that does not proceed skips one stage only. */
  function LeftAssociative(value: int, values: seq<int>, ops: seq<bool>): int
    requires |values| == |ops|
    decreases |ops|
  {
    if ops == [] then value
    else LeftAssociative(if ops[0] == (value == 0) then values[0] else value, values[1..], ops[1..])
  }

  function AndOrList(values: seq<int>, ops: seq<bool>): int
    requires |values| == |ops| + 1
  {
    LeftAssociative(values[0], values[1..], ops)
  }

  /** What `run` returns is the right-nested reading of the stages' statuses. */
  lemma {:induction false} MeaningIsRightNested(chain: Chain, h: nat, status: nat -> int)
    requires Complete(chain)
    ensures |Deciders(chain)| == |Ops(chain)| + 1
    ensures Meaning(chain, h, status, false).0 == Returned(RightNested(Values(Deciders(chain), status), Ops(chain)))
  {
    DecidersSize(chain);
    if !chain.Only? {
      MeaningIsRightNested(chain.rest, Started(chain.stage, h).handles, status);
      assert Deciders(chain)[1..] == Deciders(chain.rest);
      assert Values(Deciders(chain), status)[1..] == Values(Deciders(chain.rest), status);
      assert Ops(chain)[1..] == Ops(chain.rest);
    }
  }

  predicate Unmixed(ops: seq<bool>) {
    forall i, j :: 0 <= i < |ops| && 0 <= j < |ops| ==> ops[i] == ops[j]
  }

  lemma {:induction false} StuckValue(value: int, values: seq<int>, ops: seq<bool>)
    requires |values| == |ops| && forall i :: 0 <= i < |ops| ==> ops[i] != (value == 0)
    ensures LeftAssociative(value, values, ops) == value
    decreases |ops|
  {
    if ops != [] {
      StuckValue(value, values[1..], ops[1..]);
    }
  }

  lemma {:induction false} UnmixedAgree(values: seq<int>, ops: seq<bool>)
    requires |values| == |ops| + 1 && Unmixed(ops)
    ensures RightNested(values, ops) == AndOrList(values, ops)
    decreases |ops|
  {
    if ops != [] {
      if ops[0] == (values[0] == 0) {
        UnmixedAgree(values[1..], ops[1..]);
        assert values[1..][1..] == values[2..];
      } else {
        StuckValue(values[0], values[1..], ops);
      }
    }
  }

  lemma {:induction false} SteadyValue(value: int, values: seq<int>, ops: seq<bool>)
    requires |values| == |ops| && forall i :: 0 <= i < |values| ==> values[i] == value
    ensures LeftAssociative(value, values, ops) == value
    decreases |ops|
  {
    if ops != [] {
      SteadyValue(value, values[1..], ops[1..]);
    }
  }

  /** As soon as the operators are mixed, some statuses tell the two readings apart. */
  lemma {:induction false} MixedDisagree(ops: seq<bool>) returns (values: seq<int>)
    requires !Unmixed(ops)
    ensures |values| == |ops| + 1 && RightNested(values, ops) != AndOrList(values, ops)
    decreases |ops|
  {
    if ops[0] == ops[1] {
      if Unmixed(ops[1..]) {
        assert forall i :: 1 <= i < |ops| ==> ops[i] == ops[1..][i - 1];
        assert Unmixed(ops);
      }
      var rest := MixedDisagree(ops[1..]);
      values := [if ops[0] then 0 else 1] + rest;
      assert values[1..] == rest && values[2..] == rest[1..] && values[1..][1..] == rest[1..];
    } else {
      var last := if ops[0] then 0 else 1;
      var tail := seq(|ops| - 1, _ => last);
      values := [1 - last, 0] + tail;
      FirstPairDiffers(ops, last, tail, values);
    }
  }

  lemma FirstPairDiffers(ops: seq<bool>, last: int, tail: seq<int>, values: seq<int>)
    requires |ops| >= 2 && ops[0] != ops[1] && last == (if ops[0] then 0 else 1)
    requires |tail| == |ops| - 1 && (forall i :: 0 <= i < |tail| ==> tail[i] == last)
    requires values == [1 - last, 0] + tail
    ensures RightNested(values, ops) != AndOrList(values, ops)
  {
    assert RightNested(values, ops) == 1 - last;
    assert values[1..] == [0] + tail;
    assert values[1..][1..] == tail;
    assert AndOrList(values, ops) == LeftAssociative(1 - last, tail, ops[1..]);
    assert ops[1..][1..] == ops[2..];
    assert LeftAssociative(1 - last, tail, ops[1..]) == LeftAssociative(last, tail[1..], ops[2..]);
    SteadyValue(last, tail[1..], ops[2..]);
  }

  lemma ReadingsAgreeIffUnmixed(ops: seq<bool>)
    ensures (forall values :: |values| == |ops| + 1 ==> RightNested(values, ops) == AndOrList(values, ops)) <==>
      Unmixed(ops)
  {
    if Unmixed(ops) {
      forall values | |values| == |ops| + 1
        ensures RightNested(values, ops) == AndOrList(values, ops)
      {
        UnmixedAgree(values, ops);
      }
    } else {
      var values := MixedDisagree(ops);
    }
  }

  // ---------- on pipelines ----------

  function ChainOf(p: seq<Node>): Chain {
    ChainFrom(p, 0, ".", [])
  }

  /** From position i on every `cd` names a directory and has something after it. */
  predicate CdsOk(p: seq<Node>, i: nat) {
    forall k :: i <= k < |p| && p[k].Chdir? ==> p[k].dir.Some? && k + 1 < |p|
  }

  lemma {:induction false} CompleteIffCdsOk(p: seq<Node>, i: nat, cwd: string, open: Stage)
    requires WellFormed(p) && i < |p| && i % 2 == 0
    ensures Complete(ChainFrom(p, i, cwd, open)) <==> CdsOk(p, i)
    decreases |p| - i
  {
    assert PlaceOk(p, i);
    if i + 1 < |p| {
      assert PlaceOk(p, i + 1);
      assert CdsOk(p, i) <==> CdsOk(p, i + 2) && (p[i].Chdir? ==> p[i].dir.Some?);
    }
    match p[i]
    case Chdir(dir) =>
      if i + 1 < |p| && dir.Some? {
        CompleteIffCdsOk(p, i + 2, Join(cwd, dir.value), open);
      }
    case Cmd(c) =>
      if i + 1 < |p| {
        CompleteIffCdsOk(p, i + 2, cwd, if p[i + 1] == Pipe then open + [Placed(i, c, cwd)] else []);
      }
  }

  /** The first `cd` from position i on that names no directory or has nothing after it. */
  predicate FirstBadCd(p: seq<Node>, i: nat, k: nat) {
    && i <= k < |p| && p[k].Chdir? && (p[k].dir.None? || k + 1 == |p|)
    && forall j :: i <= j < k && p[j].Chdir? ==> p[j].dir.Some?
  }

  /** The error at the end of a chain, if it has one. */
  function Failure(chain: Chain): Option<RunError> {
    match chain
    case Only(_) => None
    case Broken(_, error) => Some(error)
    case AndThen(_, rest) => Failure(rest)
    case OrElse(_, rest) => Failure(rest)
  }

  /** The kind of error for a bad `cd`: nothing left to take, or no text to join. */
  function CdError(p: seq<Node>, k: nat): RunError {
    if k + 1 == |p| then IndexError else TypeError
  }

  lemma {:induction false} FailureIsBadCd(p: seq<Node>, i: nat, cwd: string, open: Stage)
    requires WellFormed(p) && i < |p| && i % 2 == 0
    ensures Failure(ChainFrom(p, i, cwd, open)).Some? ==>
      exists k :: FirstBadCd(p, i, k) && Failure(ChainFrom(p, i, cwd, open)) == Some(CdError(p, k))
    decreases |p| - i
  {
    assert PlaceOk(p, i) && (i + 1 < |p| ==> PlaceOk(p, i + 1));
    if p[i].Chdir? && (p[i].dir.None? || i + 1 == |p|) {
      assert FirstBadCd(p, i, i);
    } else if i + 1 < |p| {
      var cwd', open' := cwd, [];
      match p[i] {
        case Chdir(dir) => cwd', open' := Join(cwd, dir.value), open;
        case Cmd(c) => open' := if p[i + 1] == Pipe then open + [Placed(i, c, cwd)] else [];
      }
      FailureIsBadCd(p, i + 2, cwd', open');
      assert Failure(ChainFrom(p, i, cwd, open)) == Failure(ChainFrom(p, i + 2, cwd', open'));
      if k :| FirstBadCd(p, i + 2, k) && Failure(ChainFrom(p, i + 2, cwd', open')) == Some(CdError(p, k)) {
        assert FirstBadCd(p, i, k);
      }
    }
  }

  lemma {:induction false} RaisesFailure(chain: Chain, h: nat, status: nat -> int)
    ensures Meaning(chain, h, status, false).0 != NoValue
    ensures Meaning(chain, h, status, false).0.Raised? ==>
      Failure(chain) == Some(Meaning(chain, h, status, false).0.error)
  {
    if chain.AndThen? || chain.OrElse? {
      RaisesFailure(chain.rest, Started(chain.stage, h).handles, status);
    }
  }

  /** Without `verbose`, a parsed pipeline returns a status, or raises the error of its first bad `cd`. */
  lemma RunRaises(p: seq<Node>, status: nat -> int)
    requires WellFormed(p)
    ensures
      match Loop(p, FRESH, status, false).0
      case Returned(_) => true
      case NoValue => false
      case Raised(e) => exists k :: FirstBadCd(p, 0, k) && e == CdError(p, k)
  {
    RunMeans(p, status, false);
    FailureIsBadCd(p, 0, ".", []);
    RaisesFailure(ChainFrom(p, 0, ".", []), 0, status);
  }

  // ---------- the AND-OR list a pipeline spells out ----------
  // Section 2.9.3 of the POSIX.1-2017 Shell Command Language; such lists associate to the left.

  /** Nodes and operators take turns, and a node comes last. */
  lemma Turns(p: seq<Node>, i: nat)
    requires WellFormed(p) && i < |p| && i % 2 == 0
    ensures p[i].Cmd? || p[i].Chdir?
    ensures i + 1 < |p| ==> i + 2 < |p| && IsOp(p[i + 1]) && (p[i].Chdir? ==> p[i + 1] == And)
  {
    assert PlaceOk(p, i);
    assert i + 1 < |p| ==> PlaceOk(p, i + 1);
  }

  /** So every operator stands between two nodes. */
  lemma Between(p: seq<Node>, k: nat)
    requires WellFormed(p) && k < |p| && IsOp(p[k])
    ensures k % 2 == 1 && k + 1 < |p|
  {
    assert PlaceOk(p, k);
  }

  /** Each pipeline of the list by the node that decides its status: a command's position, or None for a `cd`. */
  function Pipelines(p: seq<Node>, i: nat): seq<Option<nat>>
    decreases |p| - i
  {
    if i >= |p| then []
    else if i + 1 < |p| && p[i + 1] == Pipe then Pipelines(p, i + 2)
    else [if p[i].Chdir? then None else Some(i)] + Pipelines(p, i + 2)
  }

  /** Every `&&` and `||`, also the `&&` after a `cd`; true stands for `&&`. */
  function Operators(p: seq<Node>, i: nat): seq<bool>
    decreases |p| - i
  {
    if i + 1 >= |p| then []
    else (if p[i + 1] == Pipe then [] else [p[i + 1] == And]) + Operators(p, i + 2)
  }

  lemma {:induction false} PipelinesSize(p: seq<Node>, i: nat)
    requires i < |p| && i % 2 == 0 && |p| % 2 == 1
    ensures |Pipelines(p, i)| == |Operators(p, i)| + 1
    decreases |p| - i
  {
    if i + 1 < |p| {
      PipelinesSize(p, i + 2);
    }
  }

  /** A `cd` that can be carried out has status 0. */
  function NodeStatus(decider: Option<nat>, status: nat -> int): int {
    if decider.Some? then status(decider.value) else 0
  }

  function ListValues(pipelines: seq<Option<nat>>, status: nat -> int): (values: seq<int>)
    ensures |values| == |pipelines| && forall i :: 0 <= i < |values| ==> values[i] == NodeStatus(pipelines[i], status)
  {
    if pipelines == [] then [] else [NodeStatus(pipelines[0], status)] + ListValues(pipelines[1..], status)
  }

  /** The status that section 2.9.3 gives the nodes of a pipeline. */
  function PosixStatus(p: seq<Node>, status: nat -> int): int
    requires WellFormed(p)
  {
    PipelinesSize(p, 0);
    AndOrList(ListValues(Pipelines(p, 0), status), Operators(p, 0))
  }

  function StatusAt(p: seq<Node>, i: nat, status: nat -> int): int
    requires i < |p|
  {
    if p[i].Chdir? then 0 else status(i)
  }

  /** The list read node by node from position i on, with the value and the operator so far. */
  function ListFrom(p: seq<Node>, i: nat, value: int, op: bool, status: nat -> int): int
    decreases |p| - i
  {
    if i >= |p| then value
    else if i + 1 < |p| && p[i + 1] == Pipe then ListFrom(p, i + 2, value, op, status)
    else
      var next := if op == (value == 0) then StatusAt(p, i, status) else value;
      if i + 1 == |p| then next else ListFrom(p, i + 2, next, p[i + 1] == And, status)
  }

  lemma {:induction false} ListIsLeftAssociative(p: seq<Node>, i: nat, value: int, op: bool, status: nat -> int)
    requires i < |p| && i % 2 == 0 && |p| % 2 == 1
    ensures
      |Pipelines(p, i)| == |Operators(p, i)| + 1 &&
      ListFrom(p, i, value, op, status) ==
        LeftAssociative(value, ListValues(Pipelines(p, i), status), [op] + Operators(p, i))
    decreases |p| - i
  {
    PipelinesSize(p, i);
    var values, ops := ListValues(Pipelines(p, i), status), [op] + Operators(p, i);
    assert ops[0] == op && ops[1..] == Operators(p, i);
    var next := if op == (value == 0) then StatusAt(p, i, status) else value;
    if i + 1 == |p| {
      assert Pipelines(p, i) == [if p[i].Chdir? then None else Some(i)];
      assert values[1..] == [];
    } else if p[i + 1] == Pipe {
      ListIsLeftAssociative(p, i + 2, value, op, status);
      assert Operators(p, i) == Operators(p, i + 2) && Pipelines(p, i) == Pipelines(p, i + 2);
    } else {
      ListIsLeftAssociative(p, i + 2, next, p[i + 1] == And, status);
      assert Pipelines(p, i)[1..] == Pipelines(p, i + 2);
      assert values[0] == StatusAt(p, i, status) && values[1..] == ListValues(Pipelines(p, i + 2), status);
      assert ops[1..] == [p[i + 1] == And] + Operators(p, i + 2);
    }
  }

  lemma ListStart(p: seq<Node>, status: nat -> int)
    requires WellFormed(p)
    ensures PosixStatus(p, status) == ListFrom(p, 0, 0, true, status)
  {
    ListIsLeftAssociative(p, 0, 0, true, status);
    assert ([true] + Operators(p, 0))[1..] == Operators(p, 0);
  }

  // ---------- what `run` returns, node by node ----------

  function RunFrom(p: seq<Node>, i: nat, status: nat -> int): int
    decreases |p| - i
  {
    if i >= |p| then 0
    else if i + 1 == |p| then status(i)
    else if p[i + 1] == Pipe || p[i].Chdir? then RunFrom(p, i + 2, status)
    else if (p[i + 1] == And) == (status(i) == 0) then RunFrom(p, i + 2, status)
    else status(i)
  }

  /** The right-nested reading of the stages of a chain. */
  ghost function ChainValue(chain: Chain, status: nat -> int): int
    requires Complete(chain)
  {
    DecidersSize(chain);
    RightNested(Values(Deciders(chain), status), Ops(chain))
  }

  lemma ChainValueStep(stage: Stage, rest: Chain, chain: Chain, status: nat -> int)
    requires stage != [] && Complete(rest) && chain in {AndThen(stage, rest), OrElse(stage, rest)}
    ensures
      var value := status(stage[|stage| - 1].node);
      ChainValue(chain, status) == if chain.AndThen? == (value == 0) then ChainValue(rest, status) else value
  {
    var own, op := [stage[|stage| - 1].node], [chain.AndThen?];
    DecidersSize(rest);
    assert Deciders(chain) == own + Deciders(rest) && Ops(chain) == op + Ops(rest);
    assert (own + Deciders(rest))[1..] == Deciders(rest) && (op + Ops(rest))[1..] == Ops(rest);
    assert Values(own + Deciders(rest), status)[1..] == Values(Deciders(rest), status);
  }

  lemma {:induction false} ChainIsRunFrom(p: seq<Node>, i: nat, cwd: string, open: Stage, status: nat -> int)
    requires WellFormed(p) && i < |p| && i % 2 == 0 && Complete(ChainFrom(p, i, cwd, open))
    ensures ChainValue(ChainFrom(p, i, cwd, open), status) == RunFrom(p, i, status)
    decreases |p| - i
  {
    Turns(p, i);
    match p[i]
    case Chdir(dir) => ChainIsRunFrom(p, i + 2, Join(cwd, dir.value), open, status);
    case Cmd(c) =>
      var stage := open + [Placed(i, c, cwd)];
      if i + 1 < |p| {
        if p[i + 1] == Pipe {
          ChainIsRunFrom(p, i + 2, cwd, stage, status);
        } else {
          var rest := ChainFrom(p, i + 2, cwd, []);
          ChainIsRunFrom(p, i + 2, cwd, [], status);
          ChainValueStep(stage, rest, ChainFrom(p, i, cwd, open), status);
        }
      }
  }

  lemma RunReturns(p: seq<Node>, status: nat -> int)
    requires WellFormed(p) && CdsOk(p, 0)
    ensures Loop(p, FRESH, status, false).0 == Returned(RunFrom(p, 0, status))
  {
    CompleteIffCdsOk(p, 0, ".", []);
    RunMeans(p, status, false);
    MeaningIsRightNested(ChainOf(p), 0, status);
    ChainIsRunFrom(p, 0, ".", [], status);
  }

  // ---------- when the two agree ----------

  /** A `&&` after a command; the `&&` after a `cd` is read the same way by both. */
  predicate CommandAnd(p: seq<Node>, i: nat)
    requires i < |p|
  {
    p[i] == And && i > 0 && !p[i - 1].Chdir?
  }

  /** From position i on no `&&` comes after a `||`, and no command's `&&` before a `||`. */
  predicate OneKind(p: seq<Node>, i: nat) {
    && (forall j, k :: i <= j < k < |p| && p[j] == Or ==> p[k] != And)
    && (forall j, k :: i <= j < k < |p| && CommandAnd(p, j) ==> p[k] != Or)
  }

  /** A value that no later operator lets go on stays to the end. */
  lemma {:induction false} Stays(p: seq<Node>, i: nat, value: int, op: bool, status: nat -> int)
    requires WellFormed(p) && i < |p| && i % 2 == 0 && op != (value == 0)
    requires forall k :: i <= k < |p| ==> p[k] != if value == 0 then And else Or
    ensures ListFrom(p, i, value, op, status) == value
    decreases |p| - i
  {
    Turns(p, i);
    if i + 1 < |p| {
      Stays(p, i + 2, value, if p[i + 1] == Pipe then op else p[i + 1] == And, status);
    }
  }

  lemma {:induction false} OneKindAgrees(p: seq<Node>, i: nat, value: int, op: bool, status: nat -> int)
    requires WellFormed(p) && i < |p| && i % 2 == 0 && OneKind(p, i) && op == (value == 0)
    requires CdsOk(p, 0)
    ensures ListFrom(p, i, value, op, status) == RunFrom(p, i, status)
    decreases |p| - i
  {
    Turns(p, i);
    if i + 1 < |p| {
      var next := StatusAt(p, i, status);
      if p[i + 1] == Pipe {
        OneKindAgrees(p, i + 2, value, op, status);
      } else if (p[i + 1] == And) == (next == 0) {
        OneKindAgrees(p, i + 2, next, p[i + 1] == And, status);
      } else {
        assert p[i + 1] == And ==> CommandAnd(p, i + 1);
        Stays(p, i + 2, next, p[i + 1] == And, status);
      }
    }
  }

  // ---------- when they differ ----------

  /** While everything up to a `||` succeeds, `run` stops there and the list skips to the next operator. */
  lemma {:induction false} RunStopsAtOr(p: seq<Node>, i: nat, stop: nat, status: nat -> int)
    requires WellFormed(p) && i < stop < |p| && i % 2 == 0 && p[stop] == Or
    requires forall n: nat :: n <= stop ==> status(n) == 0
    ensures RunFrom(p, i, status) == 0
    decreases stop - i
  {
    Turns(p, i);
    Between(p, stop);
    if i + 1 < stop {
      RunStopsAtOr(p, i + 2, stop, status);
    }
  }

  lemma {:induction false} ListSkipsAtOr(p: seq<Node>, i: nat, stop: nat, op: bool, status: nat -> int)
    requires WellFormed(p) && i < stop < |p| && i % 2 == 0 && p[stop] == Or
    requires forall n: nat :: n <= stop ==> status(n) == 0
    ensures stop + 1 < |p| && stop % 2 == 1
    ensures ListFrom(p, i, 0, op, status) == ListFrom(p, stop + 1, 0, false, status)
    decreases stop - i
  {
    Turns(p, i);
    Between(p, stop);
    assert StatusAt(p, i, status) == 0;
    if i + 1 < stop {
      ListSkipsAtOr(p, i + 2, stop, if p[i + 1] == Pipe then op else p[i + 1] == And, status);
    }
  }

  /** From then on everything fails: a `&&` makes the list's value 1 for good. */
  lemma {:induction false} OnesWin(p: seq<Node>, i: nat, value: int, op: bool, status: nat -> int)
    requires WellFormed(p) && CdsOk(p, 0) && i < |p| && i % 2 == 0 && (value == 0 || value == 1)
    requires forall n: nat :: n >= i ==> status(n) == 1
    requires value == 1 || op || exists k :: i <= k < |p| && p[k] == And
    ensures ListFrom(p, i, value, op, status) == 1
    decreases |p| - i
  {
    Turns(p, i);
    if i + 1 < |p| {
      if p[i + 1] == Pipe {
        OnesWin(p, i + 2, value, op, status);
      } else {
        var next := if op == (value == 0) then StatusAt(p, i, status) else value;
        OnesWin(p, i + 2, next, p[i + 1] == And, status);
      }
    }
  }

  lemma OrThenAndDiffers(p: seq<Node>, j: nat, k: nat) returns (status: nat -> int)
    requires WellFormed(p) && CdsOk(p, 0) && j < k < |p| && p[j] == Or && p[k] == And
    ensures RunFrom(p, 0, status) == 0 && PosixStatus(p, status) == 1
  {
    Between(p, j);
    status := (n: nat) => if n <= j then 0 else 1;
    ListStart(p, status);
    RunStopsAtOr(p, 0, j, status);
    ListSkipsAtOr(p, 0, j, true, status);
    OnesWin(p, j + 1, 0, false, status);
  }

  /** Where the first failure meets a command's `&&`, `run` stops and the list skips. */
  lemma {:induction false} RunStopsAtAnd(p: seq<Node>, i: nat, stop: nat, status: nat -> int)
    requires WellFormed(p) && i < stop < |p| && i % 2 == 0 && CommandAnd(p, stop)
    requires forall k :: i <= k < stop ==> p[k] != Or
    requires status(stop - 1) == 1 && forall n: nat :: n < stop - 1 ==> status(n) == 0
    ensures RunFrom(p, i, status) == 1
    decreases stop - i
  {
    Turns(p, i);
    Between(p, stop);
    if i + 1 < stop {
      RunStopsAtAnd(p, i + 2, stop, status);
    }
  }

  lemma {:induction false} ListSkipsAtAnd(p: seq<Node>, i: nat, stop: nat, status: nat -> int)
    requires WellFormed(p) && i < stop < |p| && i % 2 == 0 && CommandAnd(p, stop)
    requires forall k :: i <= k < stop ==> p[k] != Or
    requires status(stop - 1) == 1 && forall n: nat :: n < stop - 1 ==> status(n) == 0
    ensures stop + 1 < |p| && stop % 2 == 1
    ensures ListFrom(p, i, 0, true, status) == ListFrom(p, stop + 1, 1, true, status)
    decreases stop - i
  {
    Turns(p, i);
    Between(p, stop);
    if i + 1 < stop {
      assert StatusAt(p, i, status) == 0;
      ListSkipsAtAnd(p, i + 2, stop, status);
    }
  }

  /** From then on everything succeeds: a `||` makes the list's value 0 for good. */
  lemma {:induction false} ZerosWin(p: seq<Node>, i: nat, value: int, op: bool, status: nat -> int)
    requires WellFormed(p) && i < |p| && i % 2 == 0
    requires forall n: nat :: n >= i ==> status(n) == 0
    requires value == 0 || !op || exists k :: i <= k < |p| && p[k] == Or
    ensures ListFrom(p, i, value, op, status) == 0
    decreases |p| - i
  {
    Turns(p, i);
    if i + 1 < |p| {
      if p[i + 1] == Pipe {
        ZerosWin(p, i + 2, value, op, status);
      } else {
        var next := if op == (value == 0) then StatusAt(p, i, status) else value;
        ZerosWin(p, i + 2, next, p[i + 1] == And, status);
      }
    }
  }

  lemma AndThenOrDiffers(p: seq<Node>, j: nat, k: nat) returns (status: nat -> int)
    requires WellFormed(p) && j < k < |p| && CommandAnd(p, j) && p[k] == Or
    requires forall i :: 0 <= i < j ==> p[i] != Or
    ensures RunFrom(p, 0, status) == 1 && PosixStatus(p, status) == 0
  {
    Between(p, j);
    status := (n: nat) => if n == j - 1 then 1 else 0;
    ListStart(p, status);
    RunStopsAtAnd(p, 0, j, status);
    ListSkipsAtAnd(p, 0, j, status);
    ZerosWin(p, j + 1, 1, true, status);
  }

  predicate RunsAsAndOrList(p: seq<Node>, status: nat -> int)
    requires WellFormed(p)
  {
    Loop(p, FRESH, status, false).0 == Returned(PosixStatus(p, status))
  }

  /** `run` returns the status of the AND-OR list for all statuses of the commands exactly on lists of one kind. */
  lemma PosixIffOneKind(p: seq<Node>)
    requires WellFormed(p) && CdsOk(p, 0)
    ensures (forall status: nat -> int :: RunsAsAndOrList(p, status)) <==> OneKind(p, 0)
  {
    if OneKind(p, 0) {
      forall status: nat -> int
        ensures RunsAsAndOrList(p, status)
      {
        RunReturns(p, status);
        ListStart(p, status);
        OneKindAgrees(p, 0, 0, true, status);
      }
    } else {
      var status;
      if j, k :| 0 <= j < k < |p| && p[j] == Or && p[k] == And {
        status := OrThenAndDiffers(p, j, k);
      } else {
        var j, k :| 0 <= j < k < |p| && CommandAnd(p, j) && p[k] == Or;
        status := AndThenOrDiffers(p, j, k);
      }
      RunReturns(p, status);
      assert !RunsAsAndOrList(p, status);
    }
  }

  predicate NoCdAfterOr(p: seq<Node>) {
    forall j, k :: 0 <= j < k < |p| && p[j] == Or ==> !p[k].Chdir?
  }

  /** In terms of the chain that `run` evaluates: its operators are all the same, and no `cd` comes after a `||`. */
  lemma OneKindIffUnmixed(p: seq<Node>)
    requires WellFormed(p) && CdsOk(p, 0)
    ensures OneKind(p, 0) <==> Unmixed(Ops(ChainOf(p))) && NoCdAfterOr(p)
  {
    CompleteIffCdsOk(p, 0, ".", []);
    OpsOf(p, 0, ".", []);
    UnmixedIffOneMissing(Ops(ChainOf(p)));
    if OneKind(p, 0) {
      assert forall i, j :: 0 < i < |p| && 0 < j < |p| && CommandAnd(p, i) ==> p[j] != Or;
      if j, k :| 0 <= j < k < |p| && p[j] == Or && p[k].Chdir? {
        CdHasAnd(p, k);
      }
    } else if j, k :| 0 <= j < k < |p| && p[j] == Or && p[k] == And {
      Between(p, j);
      if !CommandAnd(p, k) {
        assert p[k - 1].Chdir? && j < k - 1;
      }
    } else {
      var j, k :| 0 <= j < k < |p| && CommandAnd(p, j) && p[k] == Or;
    }
  }

  lemma CdHasAnd(p: seq<Node>, k: nat)
    requires WellFormed(p) && CdsOk(p, 0) && k < |p| && p[k].Chdir?
    ensures k + 1 < |p| && p[k + 1] == And
  {
    assert PlaceOk(p, k);
  }

  lemma UnmixedIffOneMissing(ops: seq<bool>)
    ensures Unmixed(ops) <==> true !in ops || false !in ops
  {
    if true in ops && false in ops {
      var i :| 0 <= i < |ops| && ops[i];
      var j :| 0 <= j < |ops| && !ops[j];
      assert ops[i] != ops[j];
    }
  }

  lemma {:induction false} OpsOf(p: seq<Node>, i: nat, cwd: string, open: Stage)
    requires WellFormed(p) && i < |p| && i % 2 == 0 && Complete(ChainFrom(p, i, cwd, open))
    ensures true in Ops(ChainFrom(p, i, cwd, open)) <==> exists k :: i < k < |p| && CommandAnd(p, k)
    ensures false in Ops(ChainFrom(p, i, cwd, open)) <==> exists k :: i < k < |p| && p[k] == Or
    decreases |p| - i
  {
    Turns(p, i);
    if i + 1 < |p| {
      Turns(p, i + 2);
      assert (exists k :: i < k < |p| && CommandAnd(p, k))
        <==> CommandAnd(p, i + 1) || exists k :: i + 2 < k < |p| && CommandAnd(p, k);
      assert (exists k :: i < k < |p| && p[k] == Or) <==> p[i + 1] == Or || exists k :: i + 2 < k < |p| && p[k] == Or;
      match p[i]
      case Chdir(dir) => OpsOf(p, i + 2, Join(cwd, dir.value), open);
      case Cmd(c) => OpsOf(p, i + 2, cwd, if p[i + 1] == Pipe then open + [Placed(i, c, cwd)] else []);
    }
  }

  predicate CdAfterOr(p: seq<Node>, a: Command, b: Command) {
    && CommandOk(a) && CommandOk(b) && !a.stdout.ToPipe? && !b.stdout.ToPipe?
    && p == [Cmd(a), Or, Chdir(Some("d")), And, Cmd(b)]
  }

  /** `a || cd d && b` with a = 0 and b = 1: `run` stops at a, the list goes on to b. */
  lemma CdAfterOrDiffers(p: seq<Node>, a: Command, b: Command, status: nat -> int)
    requires CdAfterOr(p, a, b) && status(0) == 0 && status(4) == 1
    ensures WellFormed(p) && CdsOk(p, 0) && Unmixed(Ops(ChainOf(p)))
    ensures Loop(p, FRESH, status, false).0 == Returned(0) && PosixStatus(p, status) == 1
  {
    CdAfterOrParts(p, a, b);
    RunReturns(p, status);
    ListStart(p, status);
    assert ListFrom(p, 4, 0, true, status) == 1;
    assert ListFrom(p, 2, 0, false, status) == ListFrom(p, 4, 0, true, status);
    assert ListFrom(p, 0, 0, true, status) == ListFrom(p, 2, 0, false, status);
  }

  lemma CdAfterOrParts(p: seq<Node>, a: Command, b: Command)
    requires CdAfterOr(p, a, b)
    ensures WellFormed(p) && CdsOk(p, 0) && Unmixed(Ops(ChainOf(p)))
  {
    assert forall i :: 0 <= i < |p| ==> PlaceOk(p, i);
    CompleteIffCdsOk(p, 0, ".", []);
    OpsOf(p, 0, ".", []);
    assert !CommandAnd(p, 3);
    UnmixedIffOneMissing(Ops(ChainOf(p)));
  }

  /** `cd d && a || b` mixes the operators and yet is read the same way. */
  lemma CdFirstAgrees(p: seq<Node>, a: Command, b: Command)
    requires CommandOk(a) && CommandOk(b) && !a.stdout.ToPipe? && !b.stdout.ToPipe?
    requires p == [Chdir(Some("d")), And, Cmd(a), Or, Cmd(b)]
    ensures WellFormed(p) && CdsOk(p, 0) && forall status: nat -> int :: RunsAsAndOrList(p, status)
  {
    assert forall i :: 0 <= i < |p| ==> PlaceOk(p, i);
    PosixIffOneKind(p);
  }

  /** With `verbose` only a chain without `&&` and `||` returns a status; otherwise an unbound variable is read. */
  lemma VerboseReturnsIffOneStage(p: seq<Node>, status: nat -> int)
    requires WellFormed(p) && CdsOk(p, 0)
    ensures Loop(p, FRESH, status, true).0.Returned? <==> Ops(ChainOf(p)) == []
    ensures Ops(ChainOf(p)) != [] ==> Loop(p, FRESH, status, true).0 == Raised(UnboundLocalError)
  {
    CompleteIffCdsOk(p, 0, ".", []);
    RunMeans(p, status, true);
  }

  /** The shortest such chain: `a && b` raises after a, whatever a returns. */
  lemma VerboseFails(p: seq<Node>, a: Command, b: Command, status: nat -> int)
    requires CommandOk(a) && CommandOk(b) && !a.stdout.ToPipe? && !b.stdout.ToPipe? && p == [Cmd(a), And, Cmd(b)]
    ensures Loop(p, FRESH, status, true).0 == Raised(UnboundLocalError)
    ensures Loop(p, FRESH, status, false).0 == Returned(if status(0) != 0 then status(0) else status(2))
  {
    assert forall i :: 0 <= i < |p| ==> PlaceOk(p, i);
    RunReturns(p, status);
  }
}
