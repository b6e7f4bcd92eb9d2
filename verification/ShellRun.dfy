/** waf-tools/shellcmd.py: `Pipeline.run`. */
module ShellRun {
  import opened Wrappers
  import opened ShellParse

  /** `dev_null` is opened once when the module is loaded; every other file gets the next handle. */
  datatype File = DevNull | Opened(handle: nat)

  datatype Stream = Default | FromProcess(node: nat) | NewPipe | OnFile(file: File) | SameAsStdout

  /**
   What the interpreter does to files and processes is recorded as a log of events.
   Processes are replaced by an oracle that gives the exit status of the command at
   each position of the pipeline.
   */
  datatype Event =
    | Open(handle: nat, name: string, writing: bool)
    | Spawn(node: nat, argv: seq<string>, stdin: Stream, stdout: Stream, stderr: Stream,
            env_vars: map<string, string>, cwd: Option<string>)
    | Wait(node: nat)
    | Close(handle: nat)

  datatype RunError = AssertionFailed | IndexError | TypeError | UnboundLocalError

  /** NoValue is Python's None. */
  datatype Outcome = Returned(status: int) | NoValue | Raised(error: RunError)

  /** `os.path.join` for two parts. */
  function Join(a: string, b: string): string {
    if b != "" && b[0] == '/' then b
    else if a == "" || a[|a| - 1] == '/' then a + b
    else a + "/" + b
  }

  /** The files one command opens, and the process it starts on them. */
  datatype Wiring = Wiring(events: seq<Event>, files: seq<File>, handles: nat)

  /** `_open_out_file`: the null device is not opened again. */
  function OpenOut(name: string, h: nat): (File, seq<Event>, nat) {
    if name in ["NUL:", "/dev/null"] then (DevNull, [], h) else (Opened(h), [Open(h, name, true)], h + 1)
  }

  /** One of a command's three streams: where it goes, and what has to be opened for it. */
  datatype Wired = Wired(stream: Stream, events: seq<Event>, files: seq<File>, handles: nat)

  function OutFile(name: string, h: nat): Wired {
    var (file, events, handles) := OpenOut(name, h);
    Wired(OnFile(file), events, [file], handles)
  }

  /** A started process; `pipe` tells whether its stdout can be read, or is None. */
  datatype Process = Process(node: nat, pipe: bool)

  function WireStdin(c: Command, previous: Option<Process>, h: nat): Wired {
    if previous.Some? then Wired(if previous.value.pipe then FromProcess(previous.value.node) else Default, [], [], h)
    else
      match c.stdin
      case Some(name) => Wired(OnFile(Opened(h)), [Open(h, name, false)], [Opened(h)], h + 1)
      case None => Wired(Default, [], [], h)
  }

  function WireStdout(c: Command, h: nat): Wired {
    match c.stdout
    case ToPipe => Wired(NewPipe, [], [], h)
    case ToFile(name) => OutFile(name, h)
    case _ => Wired(Default, [], [], h)
  }

  function WireStderr(c: Command, h: nat): Wired {
    match c.stderr
    case ToPipe => Wired(NewPipe, [], [], h)
    case ToStdout => Wired(SameAsStdout, [], [], h)
    case ToFile(name) => OutFile(name, h)
    case Inherited => Wired(Default, [], [], h)
  }

  function Wire(c: Command, node: nat, previous: Option<Process>, cwd: string, h: nat): Wiring {
    var stdin := WireStdin(c, previous, h);
    var stdout := WireStdout(c, stdin.handles);
    var stderr := WireStderr(c, stdout.handles);
    var proc_cwd := if cwd == "." then None else Some(cwd);
    Wiring(stdin.events + stdout.events + stderr.events
             + [Spawn(node, c.argv, stdin.stream, stdout.stream, stderr.stream, c.env_vars, proc_cwd)],
           stdin.files + stdout.files + stderr.files, stderr.handles)
  }

  function Waits(processes: seq<Process>): seq<Event> {
    if processes == [] then [] else Waits(processes[..|processes| - 1]) + [Wait(processes[|processes| - 1].node)]
  }

  /** Closing spares the null device. */
  function Closes(files: seq<File>): seq<Event> {
    if files == [] then []
    else
      Closes(files[..|files| - 1])
        + match files[|files| - 1] case DevNull => [] case Opened(h) => [Close(h)]
  }

  // ---------- the interpreter ----------

  /** The loop's variables; `i` is how many nodes have been popped. */
  datatype RunState = RunState(
    i: nat, piping: bool, cwd: string, piped: seq<Process>, files: seq<File>, handles: nat, log: seq<Event>)

  const FRESH := RunState(0, false, ".", [], [], 0, [])

  /** In state PIPE: the process whose stdout becomes the next stdin. */
  function Source(s: RunState): Option<Process> {
    if s.piping && s.piped != [] then Some(s.piped[|s.piped| - 1]) else None
  }

  /** Wire and start the command at position s.i. */
  function Launch(s: RunState, c: Command): RunState {
    var w := Wire(c, s.i, Source(s), s.cwd, s.handles);
    s.(piped := s.piped + [Process(s.i, c.stdout.ToPipe?)], files := s.files + w.files, handles := w.handles,
       log := s.log + w.events)
  }

  /** Wait for the started processes and close their files. */
  function Settle(s: RunState): seq<Event> {
    s.log + Waits(s.piped) + Closes(s.files)
  }

  /** `_exec_piped_commands` as a status: that of the last process if any failed, else 0. */
  function PipeStatus(processes: seq<Process>, status: nat -> int): int {
    if exists k :: 0 <= k < |processes| && status(processes[k].node) != 0 then status(processes[|processes| - 1].node)
    else 0
  }

  /** A pipeline's status is its last command's: when that is 0, so is the result. */
  lemma PipeStatusIsLast(processes: seq<Process>, status: nat -> int)
    ensures processes != [] ==> PipeStatus(processes, status) == status(processes[|processes| - 1].node)
    ensures processes == [] ==> PipeStatus(processes, status) == 0
  {
  }

  method ExecPipedCommands(processes: seq<Process>, status: nat -> int) returns (retval: int, log: seq<Event>)
    ensures retval == PipeStatus(processes, status)
    ensures log == Waits(processes)
  {
    var retvals: seq<int> := [];
    log := [];
    for k := 0 to |processes|
      invariant |retvals| == k && forall j :: 0 <= j < k ==> retvals[j] == status(processes[j].node)
      invariant log == Waits(processes[..k])
    {
      assert processes[..k + 1][..k] == processes[..k];
      log := log + [Wait(processes[k].node)];
      retvals := retvals + [status(processes[k].node)];
    }
    assert processes[..|processes|] == processes;
    retval := 0;
    for k := 0 to |retvals|
      invariant retval == 0 && forall j :: 0 <= j < k ==> retvals[j] == 0
    {
      if retvals[k] != 0 {
        assert status(processes[k].node) != 0;
        return retvals[|retvals| - 1], log;
      }
    }
  }

  method CloseFiles(files: seq<File>) returns (log: seq<Event>)
    ensures log == Closes(files)
  {
    log := [];
    for k := 0 to |files|
      invariant log == Closes(files[..k])
    {
      assert files[..k + 1][..k] == files[..k];
      if files[k] != DevNull {
        log := log + [Close(files[k].handle)];
      }
    }
    assert files[..|files|] == files;
  }

  /** A command's own stdout is no file name, so opening it fails; its stdin was opened before. */
  function NotOpened(s: RunState, c: Command): seq<Event> {
    s.log + WireStdin(c, Source(s), s.handles).events
  }

  /** The main loop, from any state it can be in. */
  function Loop(p: seq<Node>, s: RunState, status: nat -> int, verbose: bool): (Outcome, seq<Event>)
    decreases |p| - s.i
  {
    if s.i >= |p| then (NoValue, s.log)
    else
      match p[s.i]
      case Chdir(dir) =>
        if s.i + 1 == |p| then (Raised(IndexError), s.log)
        else if p[s.i + 1] != And then (Raised(AssertionFailed), s.log)
        else if dir == None then (Raised(TypeError), s.log)
        else Loop(p, s.(i := s.i + 2, cwd := Join(s.cwd, dir.value)), status, verbose)
      case Cmd(c) =>
        var t := Launch(s, c);
        if c.stdout.ToStdout? then (Raised(TypeError), NotOpened(s, c))
        else if s.i + 1 == |p| then (Returned(PipeStatus(t.piped, status)), Settle(t))
        else if p[s.i + 1] == Pipe then Loop(p, t.(i := s.i + 2, piping := true), status, verbose)
        else if p[s.i + 1] == Or || p[s.i + 1] == And then
          var retval := PipeStatus(t.piped, status);
          if verbose then (Raised(UnboundLocalError), Settle(t))
          else if (p[s.i + 1] == Or && retval == 0) || (p[s.i + 1] == And && retval != 0) then
            (Returned(retval), Settle(t))
          else Loop(p, RunState(s.i + 2, false, s.cwd, [], [], t.handles, Settle(t)), status, verbose)
        else Loop(p, t.(i := s.i + 2), status, verbose)
      case _ => (Raised(AssertionFailed), s.log)
  }

  /** For any list of nodes.  With `verbose` the messages after `&&` and `||` use a variable that is not bound yet. */
  method Run(nodes: seq<Node>, status: nat -> int, verbose: bool) returns (outcome: Outcome, log: seq<Event>)
    ensures (outcome, log) == Loop(nodes, FRESH, status, verbose)
  {
    var s := FRESH;
    while s.i < |nodes|
      invariant Loop(nodes, s, status, verbose) == Loop(nodes, FRESH, status, verbose)
      decreases |nodes| - s.i
    {
      var node := nodes[s.i];
      if node.Chdir? {
        if s.i + 1 == |nodes| {
          return Raised(IndexError), s.log;
        }
        if nodes[s.i + 1] != And {
          return Raised(AssertionFailed), s.log;
        }
        if node.dir == None {
          return Raised(TypeError), s.log;
        }
        s := s.(i := s.i + 2, cwd := Join(s.cwd, node.dir.value));
        continue;
      }
      if !node.Cmd? {
        return Raised(AssertionFailed), s.log;
      }
      if node.command.stdout.ToStdout? {
        return Raised(TypeError), NotOpened(s, node.command);
      }
      var i := s.i;
      s := Launch(s, node.command);
      if i + 1 == |nodes| {
        var retval, waits := ExecPipedCommands(s.piped, status);
        var closes := CloseFiles(s.files);
        return Returned(retval), s.log + waits + closes;
      }
      var next := nodes[i + 1];
      s := s.(i := i + 2);
      if next == Pipe {
        s := s.(piping := true);
      } else if next == Or || next == And {
        var retval, waits := ExecPipedCommands(s.piped, status);
        var closes := CloseFiles(s.files);
        var done := s.log + waits + closes;
        if verbose {
          return Raised(UnboundLocalError), done;
        }
        if next == Or && retval == 0 {
          return Returned(retval), done;
        }
        if next == And && retval != 0 {
          return Returned(retval), done;
        }
        s := s.(piping := false, piped := [], files := [], log := done);
      }
    }
    return NoValue, s.log;
  }
}
