/** waf-tools/shellcmd.py: what `Pipeline.run` does to processes and files, read off its log. */
module ShellLog {
  import opened Wrappers
  import opened Paths
  import opened ShellParse
  import opened ShellRun
  import opened ShellMeaning

  // ---------- directories ----------

  predicate EndsInSlash(path: string) {
    path != "" && path[|path| - 1] == '/'
  }

  /** The second path wins if it is absolute; else there is one slash between the two, if there is a first one. */
  lemma JoinIs(a: string, b: string)
    ensures Absolute(b) ==> Join(a, b) == b
    ensures !Absolute(b) ==> a <= Join(a, b) && |Join(a, b)| == |a| + |b| + if a == "" || EndsInSlash(a) then 0 else 1
    ensures !Absolute(b) ==> Join(a, b)[|Join(a, b)| - |b|..] == b
    ensures !Absolute(b) && a != "" ==> EndsInSlash(Join(a, b)[..|Join(a, b)| - |b|])
  {
  }

  /** What this means for the parts of the path. */
  lemma JoinParts(a: string, b: string)
    ensures Parts(Join(a, b)) == if Absolute(b) then Parts(b) else Parts(a) + Parts(b)
    ensures Absolute(Join(a, b)) <==> Absolute(a) || Absolute(b)
  {
    if EndsInSlash(a) {
      PartsAfterEnd(a, b);
    } else {
      PartsAtSlash(a, b);
      assert "" + b == b;
    }
  }

  lemma PartsAfterEnd(a: string, b: string)
    requires EndsInSlash(a)
    ensures Parts(a + b) == Parts(a) + Parts(b)
  {
    var front := a[..|a| - 1];
    assert a == front + "/";
    PartsSlashEnd(front);
    PartsAtSlash(front, b);
  }

  lemma PartsSlashEnd(s: string)
    ensures Parts(s + "/") == Parts(s)
  {
    PartsAtSlash(s, "");
    assert s + "/" + "" == s + "/";
  }

  /** The directories of the `cd` commands before position k. */
  function Dirs(p: seq<Node>, k: nat): seq<string>
    requires k <= |p|
  {
    if k == 0 then []
    else Dirs(p, k - 1) + match p[k - 1] case Chdir(Some(dir)) => [dir] case _ => []
  }

  /** A directory: whether it is another one than at the start, whether it is absolute, and the parts of its path. */
  datatype Location = Location(moved: bool, absolute: bool, parts: seq<string>)

  /** Where a sequence of `cd` commands leads: each goes on from the one before, or from the root. */
  function Place(dirs: seq<string>): Location {
    if dirs == [] then Location(false, false, ["."])
    else
      var last := dirs[|dirs| - 1];
      var before := Place(dirs[..|dirs| - 1]);
      if Absolute(last) then Location(true, true, Parts(last))
      else Location(true, before.absolute, before.parts + Parts(last))
  }

  /** The directory that is written as a single dot. */
  predicate IsDot(path: string) {
    |path| == 1 && path[0] == '.'
  }

  function Where(path: string): Location {
    Location(!IsDot(path), Absolute(path), Parts(path))
  }

  predicate LeadsTo(dirs: seq<string>, path: string) {
    |path| > 0 && Where(path) == Place(dirs)
  }

  lemma JoinIsNotDot(path: string, dir: string)
    requires |path| > 0
    ensures |Join(path, dir)| > 0 && !IsDot(Join(path, dir))
  {
    JoinIs(path, dir);
    assert !Absolute(dir) && |Join(path, dir)| == 1 ==> Join(path, dir) == path;
  }

  lemma LeadsOn(dirs: seq<string>, path: string, dir: string)
    requires LeadsTo(dirs, path)
    ensures LeadsTo(dirs + [dir], Join(path, dir))
  {
    JoinParts(path, dir);
    JoinIsNotDot(path, dir);
    assert (dirs + [dir])[..|dirs|] == dirs;
  }

  lemma LeadsNowhere(dirs: seq<string>, path: string)
    requires LeadsTo(dirs, path)
    ensures IsDot(path) <==> |dirs| == 0
  {
  }

  /** Which paths stand for which sequences of `cd` commands. */
  type Leads = (seq<string>, string) -> bool

  /** What the interpreter needs of that: joining goes on by one directory, and the dot stands for no directories. */
  ghost predicate Follows(leads: Leads) {
    && leads([], ".")
    && (forall dirs, path, dir {:trigger leads(dirs, path), Join(path, dir)} ::
         leads(dirs, path) ==> leads(dirs + [dir], Join(path, dir)))
    && (forall dirs, path {:trigger leads(dirs, path)} :: leads(dirs, path) ==> (IsDot(path) <==> |dirs| == 0))
  }

  // ---------- which processes ----------

  /** The positions of the commands before position k. */
  function CommandNodes(p: seq<Node>, k: nat): (s: seq<nat>)
    requires k <= |p|
    ensures s != [] ==> s[|s| - 1] < k && p[s[|s| - 1]].Cmd?
  {
    if k == 0 then [] else CommandNodes(p, k - 1) + if p[k - 1].Cmd? then [k - 1] else []
  }

  /** The command before position k, if it writes to a pipe. */
  function Feeder(p: seq<Node>, k: nat): Option<nat>
    requires k <= |p|
  {
    var before := CommandNodes(p, k);
    if before == [] then None
    else
      var last := before[|before| - 1];
      if p[last].command.stdout.ToPipe? then Some(last) else None
  }

  // ---------- what every event must be ----------

  /** The stream is on a file that was opened under the name and for that use. */
  predicate WasOpened(before: seq<Event>, stream: Stream, name: string, writing: bool) {
    stream.OnFile? && stream.file.Opened? && Open(stream.file.handle, name, writing) in before
  }

  predicate ReadsRight(p: seq<Node>, before: seq<Event>, node: nat, c: Command, stdin: Stream)
    requires node <= |p|
  {
    match Feeder(p, node)
    case Some(n) => stdin == FromProcess(n)
    case None => if c.stdin.Some? then WasOpened(before, stdin, c.stdin.value, false) else stdin == Default
  }

  predicate WritesRight(before: seq<Event>, target: Target, stream: Stream) {
    match target
    case Inherited => stream == Default
    case ToPipe => stream == NewPipe
    case ToStdout => stream == SameAsStdout
    case ToFile(name) =>
      if name == "/dev/null" || name == "NUL:" then stream == OnFile(DevNull) else WasOpened(before, stream, name, true)
  }

  /** The process gets no directory, or one that the `cd` commands lead to. */
  predicate RunsIn(leads: Leads, cwd: Option<string>, dirs: seq<string>) {
    if cwd.None? then |dirs| == 0 else |dirs| > 0 && leads(dirs, cwd.value)
  }

  /** The event starts one of the commands: its words, variables, directory and streams are those it was given. */
  predicate StartedRight(leads: Leads, p: seq<Node>, before: seq<Event>, e: Event)
    requires e.Spawn?
  {
    && e.node < |p| && p[e.node].Cmd?
    && var c := p[e.node].command;
      && e.argv == c.argv && e.env_vars == c.env_vars && RunsIn(leads, e.cwd, Dirs(p, e.node))
      && ReadsRight(p, before, e.node, c, e.stdin)
      && WritesRight(before, c.stdout, e.stdout) && WritesRight(before, c.stderr, e.stderr)
  }

  /** What the log shows so far: the files opened, the processes started, and how many of them were waited for. */
  datatype Books = Books(files: nat, started: seq<nat>, waited: nat)

  /** Which processes may be started after which events. */
  type Rule = (seq<Event>, Event) -> bool

  /**
   The books after one more event, or None if it must not happen: files have the
   handles 0, 1, 2 and so on; processes are waited for once, in the order in which
   they were started; and files are closed while no process is running.
   */
  function Enter(right: Rule, before: seq<Event>, b: Books, e: Event): Option<Books> {
    match e
    case Open(h, _, _) => if h == b.files then Some(b.(files := h + 1)) else None
    case Spawn(n, _, _, _, _, _, _) =>
      if right(before, e) then Some(b.(started := b.started + [n])) else None
    case Wait(n) =>
      if b.waited < |b.started| && n == b.started[b.waited] then Some(b.(waited := b.waited + 1)) else None
    case Close(_) => if b.waited == |b.started| then Some(b) else None
  }

  /** The books of a log in which every event is right. */
  function Audit(right: Rule, log: seq<Event>): Option<Books> {
    if log == [] then Some(Books(0, [], 0))
    else
      var front := log[..|log| - 1];
      match Audit(right, front)
      case None => None
      case Some(b) => Enter(right, front, b, log[|log| - 1])
  }

  /** The books after more events. */
  function AuditMore(right: Rule, log: seq<Event>, b: Books, more: seq<Event>): Option<Books> {
    if more == [] then Some(b)
    else
      var front := more[..|more| - 1];
      match AuditMore(right, log, b, front)
      case None => None
      case Some(b') => Enter(right, log + front, b', more[|more| - 1])
  }

  lemma {:induction false} AuditGrows(right: Rule, log: seq<Event>, b: Books, more: seq<Event>)
    requires Audit(right, log) == Some(b)
    ensures Audit(right, log + more) == AuditMore(right, log, b, more)
    decreases |more|
  {
    if more == [] {
      assert log + more == log;
    } else {
      assert (log + more)[..|log + more| - 1] == log + more[..|more| - 1];
      AuditGrows(right, log, b, more[..|more| - 1]);
    }
  }

  // ---------- starting one command ----------

  /** Files are opened under the handles from h on. */
  ghost predicate OpensFrom(events: seq<Event>, h: nat) {
    forall j :: 0 <= j < |events| ==> events[j].Open? && events[j].handle == h + j
  }

  lemma {:induction false} OpensAudit(right: Rule, log: seq<Event>, b: Books, opens: seq<Event>)
    requires OpensFrom(opens, b.files)
    ensures AuditMore(right, log, b, opens) == Some(b.(files := b.files + |opens|))
    decreases |opens|
  {
    if opens != [] {
      OpensAudit(right, log, b, opens[..|opens| - 1]);
    }
  }

  lemma StartAudit(right: Rule, log: seq<Event>, b: Books, opens: seq<Event>, e: Event)
    requires OpensFrom(opens, b.files) && e.Spawn? && right(log + opens, e)
    ensures AuditMore(right, log, b, opens + [e]) == Some(Books(b.files + |opens|, b.started + [e.node], b.waited))
  {
    OpensAudit(right, log, b, opens);
    assert (opens + [e])[..|opens|] == opens;
  }

  /** The files opened for a command. */
  function Opens(c: Command, previous: Option<Process>, h: nat): seq<Event> {
    var a := WireStdin(c, previous, h);
    var b := WireStdout(c, a.handles);
    a.events + b.events + WireStderr(c, b.handles).events
  }

  /** The process started for it. */
  function Start(c: Command, node: nat, previous: Option<Process>, cwd: string, h: nat): (e: Event)
    ensures e.Spawn? && e.node == node
  {
    var a := WireStdin(c, previous, h);
    var b := WireStdout(c, a.handles);
    Spawn(node, c.argv, a.stream, b.stream, WireStderr(c, b.handles).stream, c.env_vars,
          if cwd == "." then None else Some(cwd))
  }

  lemma WireIs(c: Command, node: nat, previous: Option<Process>, cwd: string, h: nat)
    ensures
      var w, opens := Wire(c, node, previous, cwd, h), Opens(c, previous, h);
      && w.events == opens + [Start(c, node, previous, cwd, h)]
      && w.handles == h + |opens| && OpensFrom(opens, h)
  {
  }

  /** The process that the next command reads from. */
  function FedBy(p: seq<Node>, node: nat): Option<Process>
    requires node <= |p|
  {
    match Feeder(p, node) case Some(n) => Some(Process(n, true)) case None => None
  }

  lemma StreamsRight(p: seq<Node>, c: Command, node: nat, cwd: string, h: nat, log: seq<Event>)
    requires node < |p| && !c.stdout.ToStdout?
    ensures
      var e := Start(c, node, FedBy(p, node), cwd, h);
      var before := log + Opens(c, FedBy(p, node), h);
      && ReadsRight(p, before, node, c, e.stdin)
      && WritesRight(before, c.stdout, e.stdout) && WritesRight(before, c.stderr, e.stderr)
  {
    var a := WireStdin(c, FedBy(p, node), h);
    var b := WireStdout(c, a.handles);
    var d := WireStderr(c, b.handles);
    assert forall e :: e in a.events || e in b.events || e in d.events ==> e in log + (a.events + b.events + d.events);
    assert a.events != [] ==> a.events[0] in a.events;
    assert b.events != [] ==> b.events[0] in b.events;
    assert d.events != [] ==> d.events[0] in d.events;
  }

  lemma StartRight(leads: Leads, p: seq<Node>, c: Command, node: nat, cwd: string, h: nat, log: seq<Event>)
    requires node < |p| && p[node] == Cmd(c) && !c.stdout.ToStdout? && leads(Dirs(p, node), cwd)
    requires IsDot(cwd) <==> |Dirs(p, node)| == 0
    ensures StartedRight(leads, p, log + Opens(c, FedBy(p, node), h), Start(c, node, FedBy(p, node), cwd, h))
  {
    StreamsRight(p, c, node, cwd, h, log);
    assert cwd == "." <==> IsDot(cwd);
  }

  /** A rule that lets every command be started as it should be. */
  ghost predicate Accepts(right: Rule, leads: Leads, p: seq<Node>) {
    forall before, e: Event {:trigger right(before, e)} ::
      e.Spawn? && StartedRight(leads, p, before, e) ==> right(before, e)
  }

  /** The rule that a process is one of the commands, started as it should be. */
  function Commands(p: seq<Node>): Rule {
    (before: seq<Event>, e: Event) => e.Spawn? && StartedRight(LeadsTo, p, before, e)
  }

  datatype Checks = Checks(right: Rule, leads: Leads, p: seq<Node>)

  function CommandChecks(p: seq<Node>): Checks {
    Checks(Commands(p), LeadsTo, p)
  }

  lemma LeadsFollows()
    ensures Follows(LeadsTo)
  {
    PartsOfWord(".");
    forall dirs, path, dir | LeadsTo(dirs, path)
      ensures LeadsTo(dirs + [dir], Join(path, dir))
    {
      LeadsOn(dirs, path, dir);
    }
    forall dirs, path | LeadsTo(dirs, path)
      ensures IsDot(path) <==> |dirs| == 0
    {
      LeadsNowhere(dirs, path);
    }
  }

  ghost function SomeChecks(): (k: Checks)
    ensures Accepts(k.right, k.leads, k.p) && Follows(k.leads)
  {
    LeadsFollows();
    CommandChecks([])
  }

  /** A pipeline with a rule for its processes and a meaning of its directories: what the log is checked for. */
  type Checker = k: Checks | Accepts(k.right, k.leads, k.p) && Follows(k.leads) ghost witness SomeChecks()

  /** The events of one start: files are opened, then the command is started as it should be. */
  lemma WireParts(k: Checker, c: Command, node: nat, cwd: string, h: nat, log: seq<Event>)
    returns (opens: seq<Event>, e: Event)
    requires node < |k.p| && k.p[node] == Cmd(c) && !c.stdout.ToStdout? && k.leads(Dirs(k.p, node), cwd)
    ensures
      var w := Wire(c, node, FedBy(k.p, node), cwd, h);
      w.events == opens + [e] && w.handles == h + |opens| && OpensFrom(opens, h)
    ensures e.Spawn? && e.node == node && StartedRight(k.leads, k.p, log + opens, e)
  {
    opens, e := Opens(c, FedBy(k.p, node), h), Start(c, node, FedBy(k.p, node), cwd, h);
    WireIs(c, node, FedBy(k.p, node), cwd, h);
    StartRight(k.leads, k.p, c, node, cwd, h, log);
  }

  // ---------- the end of a stage ----------

  lemma {:induction false} WaitsAudit(right: Rule, log: seq<Event>, b: Books, processes: seq<Process>)
    requires b.waited + |processes| <= |b.started|
    requires forall k :: 0 <= k < |processes| ==> processes[k].node == b.started[b.waited + k]
    ensures AuditMore(right, log, b, Waits(processes)) == Some(b.(waited := b.waited + |processes|))
    decreases |processes|
  {
    if processes != [] {
      var front := processes[..|processes| - 1];
      WaitsAudit(right, log, b, front);
      assert Waits(processes)[..|Waits(processes)| - 1] == Waits(front);
    }
  }

  lemma {:induction false} ClosesAudit(right: Rule, log: seq<Event>, b: Books, files: seq<File>)
    requires b.waited == |b.started|
    ensures AuditMore(right, log, b, Closes(files)) == Some(b)
    decreases |files|
  {
    if files != [] {
      var front := files[..|files| - 1];
      ClosesAudit(right, log, b, front);
      match files[|files| - 1]
      case DevNull => assert Closes(files) == Closes(front);
      case Opened(h) => assert Closes(files)[..|Closes(files)| - 1] == Closes(front);
    }
  }

  // ---------- the loop ----------

  /** The directory that the loop is in, and the process that the next command reads from. */
  ghost predicate PlaceRight(leads: Leads, p: seq<Node>, s: RunState)
    requires s.i <= |p|
  {
    leads(Dirs(p, s.i), s.cwd) && Source(s) == FedBy(p, s.i)
  }

  /** The piped processes are those of the last commands. */
  ghost predicate PipedLast(piped: seq<Process>, nodes: seq<nat>) {
    |piped| <= |nodes| && forall k :: 0 <= k < |piped| ==> piped[k].node == nodes[|nodes| - |piped| + k]
  }

  /** The log shows that the commands at these positions were started, and all but the piped ones waited for. */
  ghost predicate LogUpTo(right: Rule, nodes: seq<nat>, log: seq<Event>, handles: nat, piped: seq<Process>) {
    && PipedLast(piped, nodes)
    && Audit(right, log) == Some(Books(handles, nodes, |nodes| - |piped|))
  }

  /** What holds whenever the loop takes the next command or `cd`. */
  ghost predicate Between(k: Checks, s: RunState)
    requires s.i <= |k.p|
  {
    PlaceRight(k.leads, k.p, s) && LogUpTo(k.right, CommandNodes(k.p, s.i), s.log, s.handles, s.piped)
  }

  lemma PipedOneMore(piped: seq<Process>, nodes: seq<nat>, last: Process)
    requires PipedLast(piped, nodes)
    ensures PipedLast(piped + [last], nodes + [last.node])
  {
  }

  lemma StartKeeps(k: Checker, nodes: seq<nat>, log: seq<Event>, handles: nat,
                   piped: seq<Process>, opens: seq<Event>, e: Event, last: Process)
    requires LogUpTo(k.right, nodes, log, handles, piped)
    requires OpensFrom(opens, handles) && e.Spawn? && e.node == last.node && StartedRight(k.leads, k.p, log + opens, e)
    ensures LogUpTo(k.right, nodes + [last.node], log + (opens + [e]), handles + |opens|, piped + [last])
  {
    var b := Books(handles, nodes, |nodes| - |piped|);
    StartAudit(k.right, log, b, opens, e);
    AuditGrows(k.right, log, b, opens + [e]);
    PipedOneMore(piped, nodes, last);
  }

  /** The state after a start, without the way the files were opened. */
  ghost predicate Launched(s: RunState, c: Command, t: RunState, opens: seq<Event>, e: Event) {
    && t.log == s.log + (opens + [e]) && t.handles == s.handles + |opens|
    && t.piped == s.piped + [Process(s.i, c.stdout.ToPipe?)] && t.cwd == s.cwd
  }

  lemma LaunchIs(k: Checker, s: RunState, c: Command) returns (opens: seq<Event>, e: Event)
    requires s.i < |k.p| && k.p[s.i] == Cmd(c) && !c.stdout.ToStdout? && PlaceRight(k.leads, k.p, s)
    ensures Launched(s, c, Launch(s, c), opens, e) && OpensFrom(opens, s.handles)
    ensures e.Spawn? && e.node == s.i && StartedRight(k.leads, k.p, s.log + opens, e)
  {
    opens, e := WireParts(k, c, s.i, s.cwd, s.handles, s.log);
  }

  lemma SettleKeeps(right: Rule, nodes: seq<nat>, log: seq<Event>, handles: nat, piped: seq<Process>, files: seq<File>)
    requires LogUpTo(right, nodes, log, handles, piped)
    ensures LogUpTo(right, nodes, log + Waits(piped) + Closes(files), handles, [])
  {
    WaitsKeep(right, nodes, log, handles, piped);
    ClosesAudit(right, log + Waits(piped), Books(handles, nodes, |nodes|), files);
    AuditGrows(right, log + Waits(piped), Books(handles, nodes, |nodes|), Closes(files));
  }

  lemma WaitsKeep(right: Rule, nodes: seq<nat>, log: seq<Event>, handles: nat, piped: seq<Process>)
    requires LogUpTo(right, nodes, log, handles, piped)
    ensures Audit(right, log + Waits(piped)) == Some(Books(handles, nodes, |nodes|))
  {
    var b := Books(handles, nodes, |nodes| - |piped|);
    WaitsAudit(right, log, b, piped);
    AuditGrows(right, log, b, Waits(piped));
  }

  // ---------- whole runs ----------

  /** The processes started are the first commands, and when a status is returned all of them have ended. */
  ghost predicate RunRight(right: Rule, p: seq<Node>, outcome: Outcome, log: seq<Event>) {
    match Audit(right, log)
    case None => false
    case Some(b) => b.started <= CommandNodes(p, |p|) && (outcome.Returned? ==> b.waited == |b.started|)
  }

  lemma {:induction false} FirstCommands(p: seq<Node>, k: nat, n: nat)
    requires k <= n <= |p|
    ensures CommandNodes(p, k) <= CommandNodes(p, n)
    decreases n
  {
    if k < n {
      FirstCommands(p, k, n - 1);
    }
  }

  /** The run from a state of the loop ends well. */
  ghost predicate EndsRight(right: Rule, p: seq<Node>, s: RunState, status: nat -> int, verbose: bool) {
    RunRight(right, p, Loop(p, s, status, verbose).0, Loop(p, s, status, verbose).1)
  }

  /** A state that the loop of a checked pipeline can be in. */
  datatype Spot = Spot(k: Checks, s: RunState)

  ghost predicate Reached(x: Spot) {
    && Accepts(x.k.right, x.k.leads, x.k.p) && Follows(x.k.leads) && WellFormed(x.k.p)
    && x.s.i < |x.k.p| && x.s.i % 2 == 0 && Between(x.k, x.s)
  }

  lemma StartIsReached(p: seq<Node>)
    requires WellFormed(p)
    ensures Reached(Spot(CommandChecks(p), FRESH))
  {
    LeadsFollows();
  }

  ghost function SomeSpot(): (x: Spot)
    ensures Reached(x)
  {
    assert PlaceOk([Chdir(None)], 0);
    StartIsReached([Chdir(None)]);
    Spot(CommandChecks([Chdir(None)]), FRESH)
  }

  type ReachedSpot = x: Spot | Reached(x) ghost witness SomeSpot()

  lemma {:induction false} LoopKeeps(x: ReachedSpot, status: nat -> int, verbose: bool)
    ensures EndsRight(x.k.right, x.k.p, x.s, status, verbose)
    decreases |x.k.p| - x.s.i
  {
    var next, done := StepKeeps(x, status, verbose);
    if !done {
      LoopKeeps(next, status, verbose);
    }
  }

  /** One round of the loop ends the run, or goes on after the next operator. */
  lemma StepKeeps(x: ReachedSpot, status: nat -> int, verbose: bool) returns (next: ReachedSpot, done: bool)
    ensures done ==> EndsRight(x.k.right, x.k.p, x.s, status, verbose)
    ensures !done ==> next.k == x.k && next.s.i == x.s.i + 2
    ensures !done ==> Loop(x.k.p, x.s, status, verbose) == Loop(x.k.p, next.s, status, verbose)
  {
    var t, isDone := StepCases(x.k, x.s, status, verbose);
    next, done := x, isDone;
    if !done {
      NextReached(x, t);
      next := Spot(x.k, t);
    }
  }

  lemma NextReached(x: ReachedSpot, t: RunState)
    requires t.i == x.s.i + 2 <= |x.k.p| && Between(x.k, t)
    ensures Reached(Spot(x.k, t))
  {
  }

  lemma StepCases(k: Checker, s: RunState, status: nat -> int, verbose: bool) returns (next: RunState, done: bool)
    requires WellFormed(k.p) && s.i < |k.p| && s.i % 2 == 0 && Between(k, s)
    ensures done ==> EndsRight(k.right, k.p, s, status, verbose)
    ensures !done ==> next.i == s.i + 2 <= |k.p| && Between(k, next)
    ensures !done ==> Loop(k.p, s, status, verbose) == Loop(k.p, next, status, verbose)
  {
    assert PlaceOk(k.p, s.i) && (s.i + 1 < |k.p| ==> PlaceOk(k.p, s.i + 1));
    match k.p[s.i]
    case Chdir(dir) => next, done := StepKeepsChdir(k, s, dir, status, verbose);
    case Cmd(c) => next, done := StepKeepsCommand(k, s, c, status, verbose);
  }

  lemma StepKeepsChdir(k: Checker, s: RunState, dir: Option<string>,
                       status: nat -> int, verbose: bool)
    returns (next: RunState, done: bool)
    requires s.i < |k.p| && k.p[s.i] == Chdir(dir) && (s.i + 1 < |k.p| ==> k.p[s.i + 1] == And)
    requires Between(k, s)
    ensures done ==> EndsRight(k.right, k.p, s, status, verbose)
    ensures !done ==> next.i == s.i + 2 <= |k.p| && Between(k, next)
    ensures !done ==> Loop(k.p, s, status, verbose) == Loop(k.p, next, status, verbose)
  {
    next, done := s, s.i + 1 == |k.p| || dir.None?;
    ChdirLoop(k.p, s, dir, status, verbose);
    if done {
      FirstCommands(k.p, s.i, |k.p|);
    } else {
      next := s.(i := s.i + 2, cwd := Join(s.cwd, dir.value));
      ChdirKeeps(k, s, dir.value);
    }
  }

  lemma StepKeepsCommand(k: Checker, s: RunState, c: Command, status: nat -> int,
                         verbose: bool)
    returns (next: RunState, done: bool)
    requires s.i < |k.p| && k.p[s.i] == Cmd(c) && !c.stdout.ToStdout?
    requires Between(k, s)
    requires s.i + 1 < |k.p| ==> IsOp(k.p[s.i + 1]) && (c.stdout.ToPipe? <==> k.p[s.i + 1] == Pipe)
    ensures done ==> EndsRight(k.right, k.p, s, status, verbose)
    ensures !done ==> next.i == s.i + 2 <= |k.p| && Between(k, next)
    ensures !done ==> Loop(k.p, s, status, verbose) == Loop(k.p, next, status, verbose)
  {
    LoopCases(k.p, s, c, status, verbose);
    var opens, e := LaunchIs(k, s, c);
    StartedKeeps(k, s, c, Launch(s, c), opens, e);
    CommandKeeps(k, s.i, c, Launch(s, c));
    done := Loop(k.p, s, status, verbose).1 == Settle(Launch(s, c));
    next := if s.i + 1 < |k.p| then Onward(Launch(s, c), s.i, k.p[s.i + 1] == Pipe) else s;
  }

  /** After the stage of a command, if the loop goes on. */
  function Onward(t: RunState, i: nat, piping: bool): RunState {
    if piping then t.(i := i + 2, piping := true)
    else RunState(i + 2, false, t.cwd, [], [], t.handles, Settle(t))
  }

  lemma LoopCases(p: seq<Node>, s: RunState, c: Command, status: nat -> int, verbose: bool)
    requires s.i < |p| && p[s.i] == Cmd(c) && !c.stdout.ToStdout? && (s.i + 1 < |p| ==> IsOp(p[s.i + 1]))
    ensures
      || Loop(p, s, status, verbose).1 == Settle(Launch(s, c))
      || (s.i + 1 < |p| &&
          Loop(p, s, status, verbose) == Loop(p, Onward(Launch(s, c), s.i, p[s.i + 1] == Pipe), status, verbose))
  {
    if s.i + 1 < |p| && p[s.i + 1] == Pipe {
      assert Loop(p, s, status, verbose) == Loop(p, Launch(s, c).(i := s.i + 2, piping := true), status, verbose);
    } else if s.i + 1 < |p| {
      OpLoop(p, s, c, status, verbose);
    }
  }

  /** A node and the operator after it. */
  lemma TwoNodes(p: seq<Node>, i: nat)
    requires i + 2 <= |p| && !IsOp(p[i]) && IsOp(p[i + 1])
    ensures p[i].Chdir? && p[i].dir.Some? ==> Dirs(p, i + 2) == Dirs(p, i) + [p[i].dir.value]
    ensures p[i].Cmd? ==> Dirs(p, i + 2) == Dirs(p, i)
    ensures CommandNodes(p, i + 2) == CommandNodes(p, i + 1)
    ensures p[i].Chdir? ==> CommandNodes(p, i + 2) == CommandNodes(p, i) && FedBy(p, i + 2) == FedBy(p, i)
    ensures p[i].Cmd? ==> FedBy(p, i + 2) == if p[i].command.stdout.ToPipe? then Some(Process(i, true)) else None
  {
    assert Dirs(p, i + 2) == Dirs(p, i + 1) && CommandNodes(p, i + 2) == CommandNodes(p, i + 1);
  }

  lemma ChdirKeeps(k: Checker, s: RunState, dir: string)
    requires s.i + 2 <= |k.p| && k.p[s.i] == Chdir(Some(dir)) && k.p[s.i + 1] == And
    requires Between(k, s)
    ensures Between(k, s.(i := s.i + 2, cwd := Join(s.cwd, dir)))
  {
    TwoNodes(k.p, s.i);
    assert k.leads(Dirs(k.p, s.i) + [dir], Join(s.cwd, dir));
  }

  lemma StartedKeeps(k: Checker, s: RunState, c: Command, t: RunState, opens: seq<Event>, e: Event)
    requires s.i < |k.p| && k.p[s.i] == Cmd(c) && Between(k, s)
    requires Launched(s, c, t, opens, e) && OpensFrom(opens, s.handles)
    requires e.Spawn? && e.node == s.i && StartedRight(k.leads, k.p, s.log + opens, e)
    ensures LogUpTo(k.right, CommandNodes(k.p, s.i + 1), t.log, t.handles, t.piped)
  {
    StartKeeps(k, CommandNodes(k.p, s.i), s.log, s.handles, s.piped, opens, e, Process(s.i, c.stdout.ToPipe?));
    assert CommandNodes(k.p, s.i) + [s.i] == CommandNodes(k.p, s.i + 1);
  }

  lemma CommandKeeps(k: Checker, i: nat, c: Command, t: RunState)
    requires i < |k.p| && k.p[i] == Cmd(c)
    requires i + 1 < |k.p| ==> IsOp(k.p[i + 1]) && (c.stdout.ToPipe? <==> k.p[i + 1] == Pipe)
    requires LogUpTo(k.right, CommandNodes(k.p, i + 1), t.log, t.handles, t.piped)
    requires k.leads(Dirs(k.p, i), t.cwd) && LastProcess(t.piped) == Some(Process(i, c.stdout.ToPipe?))
    ensures RunRight(k.right, k.p, Returned(0), Settle(t))
    ensures i + 1 < |k.p| ==> Between(k, Onward(t, i, k.p[i + 1] == Pipe))
  {
    StageKeeps(k.right, k.p, i, t);
    if i + 1 < |k.p| {
      StageGoesOn(k, i, t, k.p[i + 1] == Pipe);
    }
  }

  function LastProcess(piped: seq<Process>): Option<Process> {
    if |piped| == 0 then None else Some(piped[|piped| - 1])
  }

  lemma StageGoesOn(k: Checker, i: nat, t: RunState, piping: bool)
    requires i + 2 <= |k.p| && k.p[i].Cmd? && IsOp(k.p[i + 1]) && (k.p[i].command.stdout.ToPipe? <==> piping)
    requires LogUpTo(k.right, CommandNodes(k.p, i + 1), t.log, t.handles, t.piped)
    requires LogUpTo(k.right, CommandNodes(k.p, i + 1), Settle(t), t.handles, [])
    requires k.leads(Dirs(k.p, i), t.cwd) && LastProcess(t.piped) == Some(Process(i, piping))
    ensures Between(k, Onward(t, i, piping))
  {
    TwoNodes(k.p, i);
  }

  lemma StageKeeps(right: Rule, p: seq<Node>, i: nat, t: RunState)
    requires i < |p| && LogUpTo(right, CommandNodes(p, i + 1), t.log, t.handles, t.piped)
    ensures RunRight(right, p, Returned(0), Settle(t))
    ensures LogUpTo(right, CommandNodes(p, i + 1), Settle(t), t.handles, [])
  {
    SettleKeeps(right, CommandNodes(p, i + 1), t.log, t.handles, t.piped, t.files);
    FirstCommands(p, i + 1, |p|);
  }

  /**
   On every parsed pipeline: the processes started are the first commands, in order,
   each with its words, variables, directory and streams; every file has a handle of
   its own and is closed while nothing runs; and before a status is returned every
   process has been waited for, once and in order.
   */
  lemma RunLog(p: seq<Node>, status: nat -> int, verbose: bool)
    requires WellFormed(p)
    ensures var (outcome, log) := Loop(p, FRESH, status, verbose); RunRight(Commands(p), p, outcome, log)
  {
    StartIsReached(p);
    LoopKeeps(Spot(CommandChecks(p), FRESH), status, verbose);
  }

  lemma {:induction false} AuditedEvent(right: Rule, log: seq<Event>, k: nat)
    requires Audit(right, log).Some? && k < |log| && log[k].Spawn?
    ensures right(log[..k], log[k])
  {
    var front := log[..|log| - 1];
    if k < |front| {
      AuditedEvent(right, front, k);
      assert front[..k] == log[..k];
    }
  }

  /** In particular every process runs in the directory of the `cd` commands before it, on the files it was given. */
  lemma EveryProcessIsRight(p: seq<Node>, status: nat -> int, verbose: bool, k: nat)
    requires WellFormed(p)
    ensures
      var log := Loop(p, FRESH, status, verbose).1;
      k < |log| && log[k].Spawn? ==> StartedRight(LeadsTo, p, log[..k], log[k])
  {
    var log := Loop(p, FRESH, status, verbose).1;
    RunLog(p, status, verbose);
    if k < |log| && log[k].Spawn? {
      AuditedEvent(Commands(p), log, k);
    }
  }
}
