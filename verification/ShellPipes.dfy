/** waf-tools/shellcmd.py: the processes `Pipeline.run` starts are connected the way the pipes say. */
module ShellPipes {
  import opened Wrappers
  import opened ShellParse
  import opened ShellRun
  import opened ShellMeaning

  function Spawns(log: seq<Event>): seq<Event> {
    if log == [] then []
    else Spawns(log[..|log| - 1]) + if log[|log| - 1].Spawn? then [log[|log| - 1]] else []
  }

  lemma {:induction false} SpawnsConcat(a: seq<Event>, b: seq<Event>)
    ensures Spawns(a + b) == Spawns(a) + Spawns(b)
    decreases |b|
  {
    if b == [] {
      assert a + b == a;
    } else {
      assert (a + b)[..|a + b| - 1] == a + b[..|b| - 1];
      SpawnsConcat(a, b[..|b| - 1]);
    }
  }

  /** How the process of one command is started: on which streams, and where. */
  predicate StartedAs(e: Event, placed: Placed, previous: Option<Process>) {
    && e.Spawn? && e.node == placed.node && e.argv == placed.command.argv && e.env_vars == placed.command.env_vars
    && e.cwd == (if placed.cwd == "." then None else Some(placed.cwd))
    && (previous.Some? ==> e.stdin == if previous.value.pipe then FromProcess(previous.value.node) else Default)
    && (previous.None? ==> !e.stdin.FromProcess?)
    && (previous.None? ==> (e.stdin == Default <==> placed.command.stdin == None))
    && (e.stdout == NewPipe <==> placed.command.stdout.ToPipe?)
    && (e.stderr == SameAsStdout <==> placed.command.stderr.ToStdout?)
  }

  lemma OpeningSpawnsNothing(w: Wired)
    requires WiredOk(w)
    ensures Spawns(w.events) == []
  {
    if w.events != [] {
      assert w.events[..|w.events| - 1] == [];
    }
  }

  lemma ThreeSpawnNothing(a: Wired, b: Wired, d: Wired)
    requires WiredOk(a) && WiredOk(b) && WiredOk(d)
    ensures Spawns(a.events + b.events + d.events) == []
  {
    OpeningSpawnsNothing(a);
    OpeningSpawnsNothing(b);
    OpeningSpawnsNothing(d);
    SpawnsConcat(a.events, b.events);
    SpawnsConcat(a.events + b.events, d.events);
  }

  /** The process a command starts. */
  function SpawnOf(placed: Placed, previous: Option<Process>, h: nat): Event {
    var a := WireStdin(placed.command, previous, h);
    var b := WireStdout(placed.command, a.handles);
    var d := WireStderr(placed.command, b.handles);
    Spawn(placed.node, placed.command.argv, a.stream, b.stream, d.stream, placed.command.env_vars,
          if placed.cwd == "." then None else Some(placed.cwd))
  }

  lemma SpawnOfIsStartedAs(placed: Placed, previous: Option<Process>, h: nat)
    ensures StartedAs(SpawnOf(placed, previous, h), placed, previous)
  {
  }

  /** Starting a command starts one process. */
  lemma WireSpawnsOne(placed: Placed, previous: Option<Process>, h: nat)
    ensures Spawns(Wire(placed.command, placed.node, previous, placed.cwd, h).events) == [SpawnOf(placed, previous, h)]
  {
    var a := WireStdin(placed.command, previous, h);
    var b := WireStdout(placed.command, a.handles);
    var d := WireStderr(placed.command, b.handles);
    WiringOk(placed.command, previous, h);
    WiringOk(placed.command, previous, a.handles);
    WiringOk(placed.command, previous, b.handles);
    ThreeSpawnNothing(a, b, d);
  }

  ghost predicate AllStartedAs(spawns: seq<Event>, stage: Stage) {
    |spawns| == |stage| && forall k :: 0 <= k < |stage| ==> StartedAs(spawns[k], stage[k], Previous(stage[..k]))
  }

  lemma AllStartedSnoc(spawns: seq<Event>, stage: Stage, spawn: Event, last: Placed)
    requires AllStartedAs(spawns, stage) && StartedAs(spawn, last, Previous(stage))
    ensures AllStartedAs(spawns + [spawn], stage + [last])
  {
    var longer := stage + [last];
    forall k | 0 <= k < |longer|
      ensures StartedAs((spawns + [spawn])[k], longer[k], Previous(longer[..k]))
    {
      assert longer[..k] == stage[..k];
      if k == |stage| {
        assert stage[..k] == stage;
      }
    }
  }

  lemma LastSpawns(front: Stage, last: Placed, h: nat)
    ensures Spawns(Started(front + [last], h).events)
      == Spawns(Started(front, h).events) + [SpawnOf(last, Previous(front), Started(front, h).handles)]
  {
    var w0 := Started(front, h);
    var w := Wire(last.command, last.node, Previous(front), last.cwd, w0.handles);
    WireSpawnsOne(last, Previous(front), w0.handles);
    SpawnsConcat(w0.events, w.events);
    assert (front + [last])[..|front|] == front;
  }

  /** Every command of a stage but the first reads from the process before it, if that one writes to a pipe. */
  lemma {:induction false} StageSpawns(stage: Stage, h: nat)
    ensures AllStartedAs(Spawns(Started(stage, h).events), stage)
  {
    if stage != [] {
      var front, last := stage[..|stage| - 1], stage[|stage| - 1];
      var w0 := Started(front, h);
      StageSpawns(front, h);
      LastSpawns(front, last, h);
      SpawnOfIsStartedAs(last, Previous(front), w0.handles);
      AllStartedSnoc(Spawns(w0.events), front, SpawnOf(last, Previous(front), w0.handles), last);
      assert front + [last] == stage;
    }
  }

  /** In a stage exactly the commands before the last write to a pipe. */
  predicate Piped(stage: Stage, complete: bool) {
    forall k :: 0 <= k < |stage| ==> (stage[k].command.stdout.ToPipe? <==> k + 1 < |stage| || !complete)
  }

  predicate AllPiped(chain: Chain) {
    match chain
    case Only(stage) => Piped(stage, true)
    case AndThen(stage, rest) => Piped(stage, true) && AllPiped(rest)
    case OrElse(stage, rest) => Piped(stage, true) && AllPiped(rest)
    case Broken(stage, _) => Piped(stage, false)
  }

  lemma {:induction false} ParsedIsPiped(p: seq<Node>, i: nat, cwd: string, open: Stage)
    requires WellFormed(p) && i < |p| && i % 2 == 0 && Piped(open, false)
    ensures AllPiped(ChainFrom(p, i, cwd, open))
    decreases |p| - i
  {
    assert PlaceOk(p, i);
    if i + 1 < |p| {
      assert PlaceOk(p, i + 1);
    }
    match p[i]
    case Chdir(dir) =>
      if i + 1 < |p| && dir != None {
        ParsedIsPiped(p, i + 2, Join(cwd, dir.value), open);
      }
    case Cmd(c) =>
      var stage := open + [Placed(i, c, cwd)];
      if i + 1 < |p| {
        if p[i + 1] == Pipe {
          ParsedIsPiped(p, i + 2, cwd, stage);
        } else {
          ParsedIsPiped(p, i + 2, cwd, []);
        }
      }
  }

  /** Both ends of every pipe are there: one process creates it, the next one reads from that process. */
  lemma PipesConnect(stage: Stage, h: nat, k: nat)
    requires Piped(stage, true) && k < |stage|
    ensures var spawns := Spawns(Started(stage, h).events);
      && |spawns| == |stage|
      && (spawns[k].Spawn? && (spawns[k].stdout == NewPipe <==> k + 1 < |stage|))
      && (k + 1 < |stage| ==> spawns[k + 1].Spawn? && spawns[k + 1].stdin == FromProcess(spawns[k].node))
  {
    StageSpawns(stage, h);
    if k + 1 < |stage| {
      assert Previous(stage[..k + 1]) == Some(ProcessOf(stage[k]));
    }
  }
}
