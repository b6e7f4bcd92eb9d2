/** What a pipeline means, and that `run` computes it. */
module ShellMeaning {
  import opened Wrappers
  import opened Sequences
  import opened ShellParse
  import opened ShellRun

  /** A command, its position in the pipeline, and the directory it runs in. */
  datatype Placed = Placed(node: nat, command: Command, cwd: string)

  /** Commands connected by pipes. */
  type Stage = seq<Placed>

  /** Stages connected by `&&` and `||`, nested to the right; Broken is a `cd` that cannot be carried out. */
  datatype Chain =
    | Only(stage: Stage)
    | AndThen(stage: Stage, rest: Chain)
    | OrElse(stage: Stage, rest: Chain)
    | Broken(stage: Stage, error: RunError)

  /** The chain from position i on; `open` holds the commands already piped together. */
  function ChainFrom(p: seq<Node>, i: nat, cwd: string, open: Stage): Chain
    decreases |p| - i
  {
    if i >= |p| then Broken(open, IndexError)
    else
      match p[i]
      case Chdir(dir) =>
        if i + 1 == |p| then Broken(open, IndexError)
        else if p[i + 1] != And then Broken(open, AssertionFailed)
        else if dir == None then Broken(open, TypeError)
        else ChainFrom(p, i + 2, Join(cwd, dir.value), open)
      case Cmd(c) =>
        var stage := open + [Placed(i, c, cwd)];
        if i + 1 == |p| then Only(stage)
        else
          (match p[i + 1]
           case And => AndThen(stage, ChainFrom(p, i + 2, cwd, []))
           case Or => OrElse(stage, ChainFrom(p, i + 2, cwd, []))
           case _ => ChainFrom(p, i + 2, cwd, stage))
      case _ => Broken(open, AssertionFailed)
  }

  function ProcessOf(placed: Placed): Process {
    Process(placed.node, placed.command.stdout.ToPipe?)
  }

  function Processes(stage: Stage): seq<Process> {
    if stage == [] then [] else Processes(stage[..|stage| - 1]) + [ProcessOf(stage[|stage| - 1])]
  }

  /** The process a further command of the stage would read from. */
  function Previous(stage: Stage): Option<Process> {
    if stage == [] then None else Some(ProcessOf(stage[|stage| - 1]))
  }

  /** Starting a stage: each command after the first reads from the one before it. */
  function Started(stage: Stage, h: nat): Wiring {
    if stage == [] then Wiring([], [], h)
    else
      var front, last := stage[..|stage| - 1], stage[|stage| - 1];
      var before := Started(front, h);
      var w := Wire(last.command, last.node, Previous(front), last.cwd, before.handles);
      Wiring(before.events + w.events, before.files + w.files, w.handles)
  }

  function StageLog(stage: Stage, h: nat): seq<Event> {
    var w := Started(stage, h);
    w.events + Waits(Processes(stage)) + Closes(w.files)
  }

  /** The status of a stage is that of its last command. */
  function StageStatus(stage: Stage, status: nat -> int): int {
    if stage == [] then 0 else status(stage[|stage| - 1].node)
  }

  /** `s && rest` is s if s fails, else rest; `s || rest` is s if s succeeds, else rest. */
  function Meaning(chain: Chain, h: nat, status: nat -> int, verbose: bool): (Outcome, seq<Event>) {
    match chain
    case Only(stage) => (Returned(StageStatus(stage, status)), StageLog(stage, h))
    case Broken(stage, error) => (Raised(error), Started(stage, h).events)
    case AndThen(stage, rest) =>
      if verbose then (Raised(UnboundLocalError), StageLog(stage, h))
      else if StageStatus(stage, status) != 0 then (Returned(StageStatus(stage, status)), StageLog(stage, h))
      else
        var (outcome, log) := Meaning(rest, Started(stage, h).handles, status, verbose);
        (outcome, StageLog(stage, h) + log)
    case OrElse(stage, rest) =>
      if verbose then (Raised(UnboundLocalError), StageLog(stage, h))
      else if StageStatus(stage, status) == 0 then (Returned(0), StageLog(stage, h))
      else
        var (outcome, log) := Meaning(rest, Started(stage, h).handles, status, verbose);
        (outcome, StageLog(stage, h) + log)
  }

  // ---------- the interpreter computes the meaning ----------

  /** The interpreter has started `open`, after a log and a number of handles. */
  ghost predicate Underway(s: RunState, open: Stage, h: nat, log: seq<Event>) {
    && s.piping == (open != [])
    && s.piped == Processes(open)
    && s.files == Started(open, h).files
    && s.handles == Started(open, h).handles
    && s.log == log + Started(open, h).events
  }

  lemma {:induction false} ProcessesLast(stage: Stage)
    ensures (Processes(stage) == [] <==> stage == [])
    ensures stage != [] ==> Processes(stage)[|Processes(stage)| - 1] == ProcessOf(stage[|stage| - 1])
  {
  }

  lemma LaunchExtends(s: RunState, c: Command, open: Stage, h: nat, log: seq<Event>)
    requires Underway(s, open, h, log)
    ensures var stage, t := open + [Placed(s.i, c, s.cwd)], Launch(s, c);
      Underway(t.(piping := true), stage, h, log) && t.i == s.i && t.cwd == s.cwd
  {
    var last := Placed(s.i, c, s.cwd);
    ProcessesLast(open);
    var w := Wire(c, s.i, Previous(open), s.cwd, s.handles);
    Regroup3(log, Started(open, h).events, w.events);
  }

  lemma SettleIsStageLog(t: RunState, stage: Stage, h: nat, log: seq<Event>)
    requires Underway(t.(piping := true), stage, h, log)
    ensures Settle(t) == log + StageLog(stage, h)
  {
    Regroup4(log, Started(stage, h).events, Waits(t.piped), Closes(t.files));
  }

  lemma {:induction false} LoopMeans(p: seq<Node>, s: RunState, open: Stage, h: nat, log: seq<Event>,
                                     status: nat -> int, verbose: bool)
    requires WellFormed(p) && s.i < |p| && s.i % 2 == 0
    requires Underway(s, open, h, log)
    ensures Agrees(p, s, open, h, log, status, verbose)
    decreases |p| - s.i, 1
  {
    assert PlaceOk(p, s.i);
    if s.i + 1 < |p| {
      assert PlaceOk(p, s.i + 1);
    }
    match p[s.i]
    case Chdir(dir) =>
      if s.i + 1 < |p| && dir != None {
        LoopMeans(p, s.(i := s.i + 2, cwd := Join(s.cwd, dir.value)), open, h, log, status, verbose);
      }
      ChdirMeans(p, s, dir, open, h, log, status, verbose);
    case Cmd(c) => CommandMeans(p, s, c, open, h, log, status, verbose);
  }

  lemma ChdirMeans(p: seq<Node>, s: RunState, dir: Option<string>, open: Stage, h: nat, log: seq<Event>,
                   status: nat -> int, verbose: bool)
    requires s.i < |p| && p[s.i] == Chdir(dir) && Underway(s, open, h, log) && (s.i + 1 < |p| ==> p[s.i + 1] == And)
    requires s.i + 1 < |p| && dir != None ==>
      Agrees(p, s.(i := s.i + 2, cwd := Join(s.cwd, dir.value)), open, h, log, status, verbose)
    ensures Agrees(p, s, open, h, log, status, verbose)
  {
    ChdirChain(p, s.i, s.cwd, open, dir);
    ChdirLoop(p, s, dir, status, verbose);
  }

  lemma ChdirChain(p: seq<Node>, i: nat, cwd: string, open: Stage, dir: Option<string>)
    requires i < |p| && p[i] == Chdir(dir) && (i + 1 < |p| ==> p[i + 1] == And)
    ensures ChainFrom(p, i, cwd, open) ==
      if i + 1 == |p| then Broken(open, IndexError)
      else if dir == None then Broken(open, TypeError)
      else ChainFrom(p, i + 2, Join(cwd, dir.value), open)
  {
  }

  lemma ChdirLoop(p: seq<Node>, s: RunState, dir: Option<string>, status: nat -> int, verbose: bool)
    requires s.i < |p| && p[s.i] == Chdir(dir) && (s.i + 1 < |p| ==> p[s.i + 1] == And)
    ensures Loop(p, s, status, verbose) ==
      if s.i + 1 == |p| then (Raised(IndexError), s.log)
      else if dir == None then (Raised(TypeError), s.log)
      else Loop(p, s.(i := s.i + 2, cwd := Join(s.cwd, dir.value)), status, verbose)
  {
  }

  lemma StageStatusIsPipeStatus(stage: Stage, status: nat -> int)
    ensures PipeStatus(Processes(stage), status) == StageStatus(stage, status)
  {
    ProcessesLast(stage);
    PipeStatusIsLast(Processes(stage), status);
  }

  /** From position i on the loop yields both logs and then the meaning of the rest. */
  ghost predicate Continues(p: seq<Node>, i: nat, cwd: string, h: nat, log: seq<Event>, stageLog: seq<Event>,
                            status: nat -> int, verbose: bool)
    requires i < |p|
  {
    var (outcome, more) := Meaning(ChainFrom(p, i, cwd, []), h, status, verbose);
    Loop(p, RunState(i, false, cwd, [], [], h, log + stageLog), status, verbose) == (outcome, log + (stageLog + more))
  }

  /** A new stage starts with nothing open, after the log of the stages before it. */
  lemma {:induction false} NextStageMeans(p: seq<Node>, i: nat, cwd: string, h: nat, log: seq<Event>,
                                          stageLog: seq<Event>, status: nat -> int, verbose: bool)
    requires WellFormed(p) && i < |p| && i % 2 == 0
    ensures Continues(p, i, cwd, h, log, stageLog, status, verbose)
    decreases |p| - i, 2
  {
    var s := RunState(i, false, cwd, [], [], h, log + stageLog);
    assert Underway(s, [], h, log + stageLog);
    LoopMeans(p, s, [], h, log + stageLog, status, verbose);
    var (outcome, more) := Meaning(ChainFrom(p, i, cwd, []), h, status, verbose);
    Regroup3(log, stageLog, more);
  }

  /** What is to be shown of a state: the loop yields the log so far and then the meaning of the rest. */
  ghost predicate Agrees(p: seq<Node>, s: RunState, open: Stage, h: nat, log: seq<Event>, status: nat -> int,
                         verbose: bool)
  {
    var (outcome, more) := Meaning(ChainFrom(p, s.i, s.cwd, open), h, status, verbose);
    Loop(p, s, status, verbose) == (outcome, log + more)
  }

  lemma {:induction false} CommandMeans(p: seq<Node>, s: RunState, c: Command, open: Stage, h: nat, log: seq<Event>,
                                        status: nat -> int, verbose: bool)
    requires WellFormed(p) && s.i < |p| && s.i % 2 == 0 && p[s.i] == Cmd(c) && !c.stdout.ToStdout?
    requires s.i + 1 < |p| ==> IsOp(p[s.i + 1])
    requires Underway(s, open, h, log)
    ensures Agrees(p, s, open, h, log, status, verbose)
    decreases |p| - s.i, 0
  {
    if s.i + 1 == |p| {
      LastMeans(p, s, c, open, h, log, status, verbose);
    } else if p[s.i + 1] == Pipe {
      var stage, t := open + [Placed(s.i, c, s.cwd)], Launch(s, c);
      LaunchExtends(s, c, open, h, log);
      LoopMeans(p, t.(i := s.i + 2, piping := true), stage, h, log, status, verbose);
      PipeMeans(p, s, c, open, h, log, status, verbose);
    } else {
      OpMeans(p, s, c, open, h, log, status, verbose);
    }
  }

  lemma {:induction false} OpMeans(p: seq<Node>, s: RunState, c: Command, open: Stage, h: nat, log: seq<Event>,
                                   status: nat -> int, verbose: bool)
    requires WellFormed(p) && s.i + 1 < |p| && s.i % 2 == 0 && p[s.i] == Cmd(c) && !c.stdout.ToStdout?
    requires p[s.i + 1].And? || p[s.i + 1].Or?
    requires Underway(s, open, h, log)
    ensures Agrees(p, s, open, h, log, status, verbose)
    decreases |p| - s.i - 2, 3
  {
    NextStageMeans(p, s.i + 2, s.cwd, Launch(s, c).handles, log, StageLog(open + [Placed(s.i, c, s.cwd)], h), status,
      verbose);
    StageEnds(p, s, c, open, h, log, status, verbose);
  }

  lemma LastMeans(p: seq<Node>, s: RunState, c: Command, open: Stage, h: nat, log: seq<Event>, status: nat -> int,
                  verbose: bool)
    requires s.i + 1 == |p| && p[s.i] == Cmd(c) && !c.stdout.ToStdout? && Underway(s, open, h, log)
    ensures Agrees(p, s, open, h, log, status, verbose)
  {
    var stage, t := open + [Placed(s.i, c, s.cwd)], Launch(s, c);
    LaunchExtends(s, c, open, h, log);
    SettleIsStageLog(t, stage, h, log);
    StageStatusIsPipeStatus(stage, status);
    assert ChainFrom(p, s.i, s.cwd, open) == Only(stage);
    assert Loop(p, s, status, verbose) == (Returned(PipeStatus(t.piped, status)), Settle(t));
  }

  lemma PipeMeans(p: seq<Node>, s: RunState, c: Command, open: Stage, h: nat, log: seq<Event>, status: nat -> int,
                  verbose: bool)
    requires s.i + 1 < |p| && p[s.i] == Cmd(c) && !c.stdout.ToStdout? && p[s.i + 1] == Pipe
    requires Agrees(p, Launch(s, c).(i := s.i + 2, piping := true), open + [Placed(s.i, c, s.cwd)], h, log, status,
      verbose)
    ensures Agrees(p, s, open, h, log, status, verbose)
  {
    var stage, t := open + [Placed(s.i, c, s.cwd)], Launch(s, c);
    assert ChainFrom(p, s.i, s.cwd, open) == ChainFrom(p, s.i + 2, s.cwd, stage);
    assert Loop(p, s, status, verbose) == Loop(p, t.(i := s.i + 2, piping := true), status, verbose);
  }

  /** The end of a stage, given what the rest of the chain means. */
  lemma StageEnds(p: seq<Node>, s: RunState, c: Command, open: Stage, h: nat, log: seq<Event>, status: nat -> int,
                  verbose: bool)
    requires s.i + 1 < |p| && p[s.i] == Cmd(c) && !c.stdout.ToStdout? && (p[s.i + 1].And? || p[s.i + 1].Or?)
    requires Underway(s, open, h, log)
    requires s.i + 2 < |p|
    requires Continues(p, s.i + 2, s.cwd, Launch(s, c).handles, log, StageLog(open + [Placed(s.i, c, s.cwd)], h),
      status, verbose)
    ensures Agrees(p, s, open, h, log, status, verbose)
  {
    var stage, t := open + [Placed(s.i, c, s.cwd)], Launch(s, c);
    LaunchExtends(s, c, open, h, log);
    SettleIsStageLog(t, stage, h, log);
    StageStatusIsPipeStatus(stage, status);
    var rest := ChainFrom(p, s.i + 2, s.cwd, []);
    var chain := if p[s.i + 1] == And then AndThen(stage, rest) else OrElse(stage, rest);
    assert ChainFrom(p, s.i, s.cwd, open) == chain;
    OpMeaning(chain, h, status, verbose);
    OpLoop(p, s, c, status, verbose);
  }

  lemma OpLoop(p: seq<Node>, s: RunState, c: Command, status: nat -> int, verbose: bool)
    requires s.i + 1 < |p| && p[s.i] == Cmd(c) && !c.stdout.ToStdout? && (p[s.i + 1].And? || p[s.i + 1].Or?)
    ensures
      var t := Launch(s, c);
      var retval := PipeStatus(t.piped, status);
      Loop(p, s, status, verbose) ==
        if verbose then (Raised(UnboundLocalError), Settle(t))
        else if (p[s.i + 1] == And) == (retval != 0) then (Returned(retval), Settle(t))
        else Loop(p, RunState(s.i + 2, false, s.cwd, [], [], t.handles, Settle(t)), status, verbose)
  {
  }

  lemma OpMeaning(chain: Chain, h: nat, status: nat -> int, verbose: bool)
    requires chain.AndThen? || chain.OrElse?
    ensures
      var value, log := StageStatus(chain.stage, status), StageLog(chain.stage, h);
      var (outcome, more) := Meaning(chain.rest, Started(chain.stage, h).handles, status, verbose);
      Meaning(chain, h, status, verbose) ==
        if verbose then (Raised(UnboundLocalError), log)
        else if chain.AndThen? == (value != 0) then (Returned(value), log)
        else (outcome, log + more)
  {
  }

  /** `run` computes the meaning of every pipeline that parsing can produce. */
  lemma RunMeans(p: seq<Node>, status: nat -> int, verbose: bool)
    requires WellFormed(p)
    ensures Loop(p, FRESH, status, verbose) == Meaning(ChainFrom(p, 0, ".", []), 0, status, verbose)
  {
    NextStageMeans(p, 0, ".", 0, [], [], status, verbose);
    var more := Meaning(ChainFrom(p, 0, ".", []), 0, status, verbose).1;
    assert [] + ([] + more) == more;
    assert FRESH == RunState(0, false, ".", [], [], 0, [] + []);
  }

  // ---------- every opened file is closed ----------

  /** The handles open after a log, given those open before. */
  function OpenAfter(before: set<nat>, log: seq<Event>): set<nat> {
    if log == [] then before
    else
      var rest := OpenAfter(before, log[..|log| - 1]);
      match log[|log| - 1]
      case Open(h, _, _) => rest + {h}
      case Close(h) => rest - {h}
      case _ => rest
  }

  lemma {:induction false} OpenAfterConcat(before: set<nat>, a: seq<Event>, b: seq<Event>)
    ensures OpenAfter(before, a + b) == OpenAfter(OpenAfter(before, a), b)
    decreases |b|
  {
    if b == [] {
      assert a + b == a;
    } else {
      assert (a + b)[..|a + b| - 1] == a + b[..|b| - 1];
      OpenAfterConcat(before, a, b[..|b| - 1]);
    }
  }

  function Handles(files: seq<File>): set<nat> {
    if files == [] then {}
    else
      Handles(files[..|files| - 1]) + match files[|files| - 1] case DevNull => {} case Opened(h) => {h}
  }

  lemma {:induction false} HandlesConcat(a: seq<File>, b: seq<File>)
    ensures Handles(a + b) == Handles(a) + Handles(b)
    decreases |b|
  {
    if b == [] {
      assert a + b == a;
    } else {
      assert (a + b)[..|a + b| - 1] == a + b[..|b| - 1];
      HandlesConcat(a, b[..|b| - 1]);
    }
  }

  lemma WiredOpens(before: set<nat>, w: Wired)
    requires |w.events| <= 1 && |w.files| <= 1
    requires w.events == [] ==> w.files == [] || w.files == [DevNull]
    requires w.events != [] ==> w.events[0].Open? && w.files == [Opened(w.events[0].handle)]
    ensures OpenAfter(before, w.events) == before + Handles(w.files)
  {
    assert OpenAfter(before, []) == before;
    assert Handles([]) == {};
    if w.events != [] {
      assert w.events == [w.events[0]] && w.events[..0] == [] && w.files[..0] == [];
    }
  }

  predicate WiredOk(w: Wired) {
    if w.events == [] then w.files == [] || w.files == [DevNull]
    else |w.events| == 1 && w.events[0].Open? && w.files == [Opened(w.events[0].handle)]
  }

  lemma WiringOk(c: Command, previous: Option<Process>, h: nat)
    ensures WiredOk(WireStdin(c, previous, h)) && WiredOk(WireStdout(c, h)) && WiredOk(WireStderr(c, h))
  {
  }

  lemma JoinOpens(before: set<nat>, events: seq<Event>, files: seq<File>, w: Wired)
    requires WiredOk(w) && OpenAfter({}, events) == Handles(files)
    requires OpenAfter(before, events) == before + Handles(files)
    ensures OpenAfter(before, events + w.events) == before + Handles(files + w.files)
  {
    WiredOpens(before + Handles(files), w);
    OpenAfterConcat(before, events, w.events);
    HandlesConcat(files, w.files);
  }

  lemma ThreeOpen(before: set<nat>, a: Wired, b: Wired, d: Wired)
    requires WiredOk(a) && WiredOk(b) && WiredOk(d)
    ensures OpenAfter(before, a.events + b.events + d.events) == before + Handles(a.files + b.files + d.files)
  {
    WiredOpens({}, a);
    WiredOpens(before, a);
    JoinOpens({}, a.events, a.files, b);
    JoinOpens(before, a.events, a.files, b);
    JoinOpens(before, a.events + b.events, a.files + b.files, d);
  }

  /** Starting a command opens exactly the files it keeps for closing. */
  lemma WireOpens(before: set<nat>, c: Command, node: nat, previous: Option<Process>, cwd: string, h: nat)
    ensures var w := Wire(c, node, previous, cwd, h); OpenAfter(before, w.events) == before + Handles(w.files)
  {
    var a := WireStdin(c, previous, h);
    var b := WireStdout(c, a.handles);
    var d := WireStderr(c, b.handles);
    WiringOk(c, previous, h);
    WiringOk(c, previous, a.handles);
    WiringOk(c, previous, b.handles);
    ThreeOpen(before, a, b, d);
  }

  lemma {:induction false} StartedOpens(before: set<nat>, stage: Stage, h: nat)
    ensures OpenAfter(before, Started(stage, h).events) == before + Handles(Started(stage, h).files)
  {
    if stage != [] {
      var front, last := stage[..|stage| - 1], stage[|stage| - 1];
      var w0 := Started(front, h);
      var w := Wire(last.command, last.node, Previous(front), last.cwd, w0.handles);
      StartedOpens(before, front, h);
      WireOpens(before + Handles(w0.files), last.command, last.node, Previous(front), last.cwd, w0.handles);
      OpenAfterConcat(before, w0.events, w.events);
      HandlesConcat(w0.files, w.files);
    }
  }

  lemma {:induction false} WaitsOpenNothing(before: set<nat>, processes: seq<Process>)
    ensures OpenAfter(before, Waits(processes)) == before
  {
    if processes != [] {
      var front := processes[..|processes| - 1];
      WaitsOpenNothing(before, front);
      OpenAfterConcat(before, Waits(front), [Wait(processes[|processes| - 1].node)]);
    }
  }

  lemma {:induction false} ClosesCloseAll(before: set<nat>, files: seq<File>)
    ensures OpenAfter(before, Closes(files)) == before - Handles(files)
  {
    if files != [] {
      var front := files[..|files| - 1];
      ClosesCloseAll(before, front);
      match files[|files| - 1]
      case DevNull => assert Closes(files) == Closes(front);
      case Opened(h) => assert Closes(files)[..|Closes(files)| - 1] == Closes(front);
    }
  }

  lemma StageClosesAll(stage: Stage, h: nat)
    ensures OpenAfter({}, StageLog(stage, h)) == {}
  {
    var w := Started(stage, h);
    StartedOpens({}, stage, h);
    assert OpenAfter({}, w.events) == Handles(w.files);
    WaitsOpenNothing(Handles(w.files), Processes(stage));
    ClosesCloseAll(Handles(w.files), w.files);
    OpenAfterConcat({}, w.events, Waits(Processes(stage)));
    OpenAfterConcat({}, w.events + Waits(Processes(stage)), Closes(w.files));
  }

  /** Whenever a status is returned, every file opened on the way has been closed. */
  lemma {:induction false} MeaningClosesAll(chain: Chain, h: nat, status: nat -> int, verbose: bool)
    ensures Meaning(chain, h, status, verbose).0.Returned? ==> OpenAfter({}, Meaning(chain, h, status, verbose).1) == {}
    ensures verbose && !chain.Broken? ==> OpenAfter({}, Meaning(chain, h, status, verbose).1) == {}
  {
    if !chain.Broken? {
      StageClosesAll(chain.stage, h);
      if chain.AndThen? || chain.OrElse? {
        var h' := Started(chain.stage, h).handles;
        MeaningClosesAll(chain.rest, h', status, verbose);
        OpenAfterConcat({}, StageLog(chain.stage, h), Meaning(chain.rest, h', status, verbose).1);
      }
    }
  }

  /** Every file `run` opens is closed again whenever it returns a status. */
  lemma RunClosesAll(p: seq<Node>, status: nat -> int, verbose: bool)
    requires WellFormed(p) && Loop(p, FRESH, status, verbose).0.Returned?
    ensures OpenAfter({}, Loop(p, FRESH, status, verbose).1) == {}
  {
    RunMeans(p, status, verbose);
    MeaningClosesAll(ChainFrom(p, 0, ".", []), 0, status, verbose);
  }
}
