/** test.py: dispatcher, worker threads, interrupt. */
module WorkerProtocol {

  /**
   `ticket` is the position at which the dispatcher queued the job.  A stop job is
   born with `is_break`; a worker sets it on a real job it returns unexecuted.
   */
  datatype Job = Job(ticket: nat, is_break: bool, is_skip: bool, returncode: int)

  /** Where a worker's loop stands, with the job it holds. */
  datatype Worker =
    | Idle
    | Taken(job: Job)      // got a job that is no stop job, about to look at the flag
    | Running(job: Job)    // executing the job's command
    | Reporting(job: Job)  // about to put the job on the output queue
    | Stopped

  /** The jobs to dispatch (only whether each is to be skipped matters) and the number of threads. */
  datatype Config = Config(skips: seq<bool>, processors: nat)

  datatype Tally = Tally(passed: nat, failed: nat, valgrind: nat, crashed: nat, skipped: nat)

  datatype State = State(
    input: seq<Job>, output: seq<Job>, workers: seq<Worker>, thread_exit: bool,
    put: nat, stops: nat, collected: seq<Job>, tally: Tally, joined: nat)

  /**
   A step is one queue operation, one look at the flag, or one finished process, so
   a sequence of steps is one interleaving of the threads.
   */
  datatype Step =
    | PutJob | PutStop | Collect | Join                       // the dispatcher
    | Get(w: nat) | Check(w: nat) | Finish(w: nat, code: int) | Report(w: nat)  // worker w
    | Interrupt                                               // the signal handler

  function Init(c: Config): State {
    State([], [], seq(c.processors, _ => Idle), false, 0, 0, [], Tally(0, 0, 0, 0, 0), 0)
  }

  predicate Done(c: Config, s: State) {
    |s.collected| == |c.skips| && s.stops == c.processors && s.joined == c.processors
  }

  predicate Enabled(c: Config, s: State, step: Step) {
    match step
    case PutJob => s.put < |c.skips|
    case PutStop => s.put == |c.skips| && s.stops < c.processors
    case Collect => s.put == |c.skips| && s.stops == c.processors && |s.collected| < s.put && s.output != []
    case Join => s.put == |c.skips| && s.stops == c.processors && |s.collected| == s.put
      && s.joined < |s.workers| && s.joined < c.processors && s.workers[s.joined].Stopped?
    case Get(w) => w < |s.workers| && s.workers[w].Idle? && s.input != []
    case Check(w) => w < |s.workers| && s.workers[w].Taken?
    case Finish(w, code) => w < |s.workers| && s.workers[w].Running?
    case Report(w) => w < |s.workers| && s.workers[w].Reporting?
    case Interrupt => true
  }

  /** The counters of the collecting loop. */
  function Count(t: Tally, job: Job): Tally {
    if job.is_break then t
    else if job.is_skip then t.(skipped := t.skipped + 1)
    else if job.returncode == 0 then t.(passed := t.passed + 1)
    else if job.returncode == 1 then t.(failed := t.failed + 1)
    else if job.returncode == 2 then t.(valgrind := t.valgrind + 1)
    else t.(crashed := t.crashed + 1)
  }

  function Apply(c: Config, s: State, step: Step): State
    requires Enabled(c, s, step)
  {
    match step
    case PutJob => s.(input := s.input + [Job(s.put, false, c.skips[s.put], 0)], put := s.put + 1)
    case PutStop => s.(input := s.input + [Job(s.put + s.stops, true, false, 0)], stops := s.stops + 1)
    case Collect =>
      s.(output := s.output[1..], collected := s.collected + [s.output[0]], tally := Count(s.tally, s.output[0]))
    case Join => s.(joined := s.joined + 1)
    case Get(w) =>
      var job := s.input[0];
      s.(input := s.input[1..], workers := s.workers[w := if job.is_break then Stopped else Taken(job)])
    case Check(w) =>
      var job := s.workers[w].job;
      s.(workers := s.workers[w :=
        if s.thread_exit then Reporting(job.(is_break := true))
        else if job.is_skip then Reporting(job)
        else Running(job)])
    case Finish(w, code) => s.(workers := s.workers[w := Reporting(s.workers[w].job.(returncode := code))])
    case Report(w) => s.(output := s.output + [s.workers[w].job], workers := s.workers[w := Idle])
    case Interrupt => s.(thread_exit := true)
  }

  /** One interleaving: the steps taken, and the states passed through. */
  ghost predicate Run(c: Config, steps: seq<Step>, states: seq<State>) {
    && |states| == |steps| + 1
    && states[0] == Init(c)
    && forall i {:trigger steps[i]} :: 0 <= i < |steps| ==>
         Enabled(c, states[i], steps[i]) && states[i + 1] == Apply(c, states[i], steps[i])
  }

  // ---------- counting where a ticket is ----------

  /** How often a ticket occurs in a queue. */
  function Occurs(jobs: seq<Job>, t: nat): nat {
    if jobs == [] then 0
    else Occurs(jobs[..|jobs| - 1], t) + if jobs[|jobs| - 1].ticket == t then 1 else 0
  }

  predicate Holds(w: Worker) {
    !w.Idle? && !w.Stopped?
  }

  /** How many workers hold the ticket. */
  function Held(workers: seq<Worker>, t: nat): nat {
    if workers == [] then 0
    else Held(workers[..|workers| - 1], t) + HeldBy(workers[|workers| - 1], t)
  }

  function HeldBy(w: Worker, t: nat): nat {
    if Holds(w) && w.job.ticket == t then 1 else 0
  }

  function Busy(workers: seq<Worker>): nat {
    if workers == [] then 0
    else Busy(workers[..|workers| - 1]) + if Holds(workers[|workers| - 1]) then 1 else 0
  }

  function StoppedCount(workers: seq<Worker>): nat {
    if workers == [] then 0
    else StoppedCount(workers[..|workers| - 1]) + if workers[|workers| - 1].Stopped? then 1 else 0
  }

  lemma {:induction false} OccursHead(jobs: seq<Job>, t: nat)
    requires jobs != []
    ensures Occurs(jobs, t) == Occurs(jobs[1..], t) + if jobs[0].ticket == t then 1 else 0
  {
    if |jobs| > 1 {
      var front := jobs[..|jobs| - 1];
      OccursHead(front, t);
      assert jobs[1..][..|jobs| - 2] == front[1..];
    }
  }

  lemma OccursSnoc(jobs: seq<Job>, job: Job, t: nat)
    ensures Occurs(jobs + [job], t) == Occurs(jobs, t) + if job.ticket == t then 1 else 0
  {
    assert (jobs + [job])[..|jobs|] == jobs;
  }

  lemma {:induction false} HeldUpdate(workers: seq<Worker>, w: nat, x: Worker, t: nat)
    requires w < |workers|
    ensures Held(workers[w := x], t) == Held(workers, t) - HeldBy(workers[w], t) + HeldBy(x, t)
    decreases |workers|
  {
    var n := |workers| - 1;
    if w == n {
      assert workers[w := x][..n] == workers[..n];
    } else {
      HeldUpdate(workers[..n], w, x, t);
      assert workers[w := x][..n] == workers[..n][w := x];
    }
  }

  lemma {:induction false} CountUpdate(workers: seq<Worker>, w: nat, x: Worker)
    requires w < |workers|
    ensures Busy(workers[w := x]) == Busy(workers) - (if Holds(workers[w]) then 1 else 0) + if Holds(x) then 1 else 0
    ensures StoppedCount(workers[w := x])
         == StoppedCount(workers) - (if workers[w].Stopped? then 1 else 0) + if x.Stopped? then 1 else 0
    decreases |workers|
  {
    var n := |workers| - 1;
    if w == n {
      assert workers[w := x][..n] == workers[..n];
    } else {
      CountUpdate(workers[..n], w, x);
      assert workers[w := x][..n] == workers[..n][w := x];
    }
  }

  // ---------- the invariant ----------

  /** Everything queued so far that has left the input queue. */
  function Gone(s: State): int {
    s.put + s.stops - |s.input|
  }

  /** The queue holds the last items queued, in order; stop jobs are those queued after all real ones. */
  ghost predicate InputInv(c: Config, s: State) {
    && 0 <= Gone(s)
    && forall i :: 0 <= i < |s.input| ==>
         var job := s.input[i];
         && job.ticket == Gone(s) + i
         && (job.is_break <==> |c.skips| <= job.ticket)
         && (!job.is_break ==> job.is_skip == c.skips[job.ticket])
  }

  /** A real job never changes its ticket or skip flag, and is marked broken only after an interrupt. */
  predicate Genuine(c: Config, s: State, job: Job) {
    && job.ticket < |c.skips| && job.is_skip == c.skips[job.ticket]
    && (job.is_break ==> s.thread_exit)
  }

  predicate WorkerInv(c: Config, s: State, w: Worker) {
    match w
    case Idle => true
    case Taken(job) => Genuine(c, s, job) && !job.is_break
    case Running(job) => Genuine(c, s, job) && !job.is_break && !job.is_skip
    case Reporting(job) => Genuine(c, s, job)
    case Stopped => true
  }

  /** How many real jobs have left the input queue. */
  function GoneJobs(c: Config, s: State): int {
    if Gone(s) < |c.skips| then Gone(s) else |c.skips|
  }

  /** The number of workers that hold the ticket and of queue positions after the input queue that have it. */
  function Places(s: State, t: nat): nat {
    Held(s.workers, t) + Occurs(s.output, t) + Occurs(s.collected, t)
  }

  /** Every real job that left the input queue is in exactly one place; each stop job became an exit. */
  ghost predicate Conserved(c: Config, s: State) {
    && (forall t: nat :: Places(s, t) == if t < GoneJobs(c, s) then 1 else 0)
    && Busy(s.workers) + |s.output| + |s.collected| == GoneJobs(c, s)
    && StoppedCount(s.workers) == Gone(s) - GoneJobs(c, s)
  }

  ghost predicate PhaseInv(c: Config, s: State) {
    && |s.workers| == c.processors
    && s.put <= |c.skips| && s.stops <= c.processors && s.joined <= c.processors
    && (s.stops > 0 ==> s.put == |c.skips|)
    && |s.collected| <= |c.skips|
    && (s.collected != [] || s.joined > 0 ==> s.put == |c.skips| && s.stops == c.processors)
    && (s.joined > 0 ==> |s.collected| == |c.skips|)
    && (forall w :: 0 <= w < s.joined ==> s.workers[w].Stopped?)
  }

  ghost predicate Inv(c: Config, s: State) {
    && PhaseInv(c, s)
    && InputInv(c, s)
    && Conserved(c, s)
    && (forall w :: 0 <= w < |s.workers| ==> WorkerInv(c, s, s.workers[w]))
    && (forall i :: 0 <= i < |s.output| ==> Genuine(c, s, s.output[i]))
    && (forall i :: 0 <= i < |s.collected| ==> Genuine(c, s, s.collected[i]))
    && s.tally == TallyOf(s.collected)
  }

  function TallyOf(results: seq<Job>): Tally {
    if results == [] then Tally(0, 0, 0, 0, 0) else Count(TallyOf(results[..|results| - 1]), results[|results| - 1])
  }

  lemma {:induction false} AllIdle(n: nat, t: nat)
    ensures var workers := seq(n, _ => Idle);
      Held(workers, t) == Busy(workers) == StoppedCount(workers) == 0
  {
    if n > 0 {
      AllIdle(n - 1, t);
      assert seq(n, _ => Idle)[..n - 1] == seq(n - 1, _ => Idle);
    }
  }

  lemma InitInv(c: Config)
    ensures Inv(c, Init(c))
  {
    forall t: nat
      ensures Places(Init(c), t) == 0
    {
      AllIdle(c.processors, t);
    }
    AllIdle(c.processors, 0);
  }

  lemma PutKeeps(c: Config, s: State, step: Step)
    requires Inv(c, s) && Enabled(c, s, step) && (step.PutJob? || step.PutStop?)
    ensures Inv(c, Apply(c, s, step))
  {
    var s' := Apply(c, s, step);
    assert Gone(s') == Gone(s);
    assert forall i :: 0 <= i < |s.input| ==> s'.input[i] == s.input[i];
    assert forall t: nat :: Places(s', t) == Places(s, t);
    OthersKeep(c, s, s', |s.workers|);
  }

  lemma OthersKeep(c: Config, s: State, s': State, w: nat)
    requires forall v :: 0 <= v < |s.workers| ==> WorkerInv(c, s, s.workers[v])
    requires |s'.workers| == |s.workers| && (s.thread_exit ==> s'.thread_exit)
    requires forall v :: 0 <= v < |s.workers| && v != w ==> s'.workers[v] == s.workers[v]
    requires w < |s.workers| ==> WorkerInv(c, s', s'.workers[w])
    ensures forall v :: 0 <= v < |s'.workers| ==> WorkerInv(c, s', s'.workers[v])
  {
    forall v | 0 <= v < |s'.workers|
      ensures WorkerInv(c, s', s'.workers[v])
    {
      if v != w {
        assert WorkerInv(c, s, s.workers[v]);
      }
    }
  }

  lemma GetConserves(c: Config, s: State, w: nat)
    requires InputInv(c, s) && Conserved(c, s) && Enabled(c, s, Get(w))
    ensures Conserved(c, Apply(c, s, Get(w)))
  {
    var s' := Apply(c, s, Get(w));
    assert s.input[0].ticket == Gone(s);
    CountUpdate(s.workers, w, s'.workers[w]);
    forall t: nat
      ensures Places(s', t) == if t < GoneJobs(c, s') then 1 else 0
    {
      HeldUpdate(s.workers, w, s'.workers[w], t);
      assert Places(s, t) == if t < GoneJobs(c, s) then 1 else 0;
    }
  }

  lemma GetKeeps(c: Config, s: State, w: nat)
    requires Inv(c, s) && Enabled(c, s, Get(w))
    ensures Inv(c, Apply(c, s, Get(w)))
  {
    var s' := Apply(c, s, Get(w));
    GetConserves(c, s, w);
    assert forall i :: 0 <= i < |s'.input| ==> s'.input[i] == s.input[i + 1];
    OthersKeep(c, s, s', w);
  }

  lemma WorkMovesNothing(c: Config, s: State, step: Step, t: nat)
    requires Enabled(c, s, step) && (step.Check? || step.Finish? || step.Report?)
    ensures Places(Apply(c, s, step), t) == Places(s, t)
  {
    HeldUpdate(s.workers, step.w, Apply(c, s, step).workers[step.w], t);
    OccursSnoc(s.output, s.workers[step.w].job, t);
  }

  lemma WorkConserves(c: Config, s: State, step: Step)
    requires 0 <= Gone(s) && Conserved(c, s)
    requires Enabled(c, s, step) && (step.Check? || step.Finish? || step.Report?)
    ensures Conserved(c, Apply(c, s, step))
  {
    var s' := Apply(c, s, step);
    CountUpdate(s.workers, step.w, s'.workers[step.w]);
    forall t: nat
      ensures Places(s', t) == Places(s, t)
    {
      WorkMovesNothing(c, s, step, t);
    }
  }

  lemma WorkKeeps(c: Config, s: State, step: Step)
    requires Inv(c, s) && Enabled(c, s, step) && (step.Check? || step.Finish? || step.Report?)
    ensures Inv(c, Apply(c, s, step))
  {
    WorkConserves(c, s, step);
    WorkKeepsWorkers(c, s, step);
  }

  lemma WorkKeepsWorkers(c: Config, s: State, step: Step)
    requires Enabled(c, s, step) && (step.Check? || step.Finish? || step.Report?)
    requires forall v :: 0 <= v < |s.workers| ==> WorkerInv(c, s, s.workers[v])
    ensures
      var s' := Apply(c, s, step);
      forall v :: 0 <= v < |s'.workers| ==> WorkerInv(c, s', s'.workers[v])
  {
    assert WorkerInv(c, s, s.workers[step.w]);
    OthersKeep(c, s, Apply(c, s, step), step.w);
  }

  lemma CollectKeeps(c: Config, s: State)
    requires Inv(c, s) && Enabled(c, s, Collect)
    ensures Inv(c, Apply(c, s, Collect))
  {
    var s' := Apply(c, s, Collect);
    forall t: nat
      ensures Places(s', t) == Places(s, t)
    {
      OccursHead(s.output, t);
      OccursSnoc(s.collected, s.output[0], t);
    }
    assert s'.collected[..|s.collected|] == s.collected;
    assert Genuine(c, s, s.output[0]);
    OthersKeep(c, s, s', |s.workers|);
  }

  lemma QuietKeeps(c: Config, s: State, step: Step)
    requires Inv(c, s) && Enabled(c, s, step) && (step.Join? || step.Interrupt?)
    ensures Inv(c, Apply(c, s, step))
  {
    var s' := Apply(c, s, step);
    assert forall t: nat :: Places(s', t) == Places(s, t);
    OthersKeep(c, s, s', |s.workers|);
  }

  /** Every step of every thread keeps the invariant. */
  lemma StepKeeps(c: Config, s: State, step: Step)
    requires Inv(c, s) && Enabled(c, s, step)
    ensures Inv(c, Apply(c, s, step))
  {
    match step
    case PutJob => PutKeeps(c, s, step);
    case PutStop => PutKeeps(c, s, step);
    case Collect => CollectKeeps(c, s);
    case Get(w) => GetKeeps(c, s, w);
    case Check(w) => WorkKeeps(c, s, step);
    case Finish(w, code) => WorkKeeps(c, s, step);
    case Report(w) => WorkKeeps(c, s, step);
    case Join => QuietKeeps(c, s, step);
    case Interrupt => QuietKeeps(c, s, step);
  }

  lemma {:induction false} RunKeeps(c: Config, steps: seq<Step>, states: seq<State>, i: nat)
    requires Run(c, steps, states) && i < |states|
    ensures Inv(c, states[i])
  {
    if i == 0 {
      InitInv(c);
    } else {
      RunKeeps(c, steps, states, i - 1);
      assert Enabled(c, states[i - 1], steps[i - 1]);
      StepKeeps(c, states[i - 1], steps[i - 1]);
    }
  }

  // ---------- what holds in every run ----------

  /** No worker has taken a stop job while a real job is still queued or still to be queued. */
  lemma StopsAreLast(c: Config, steps: seq<Step>, states: seq<State>, i: nat, w: nat)
    requires Run(c, steps, states) && i < |states|
    requires w < |states[i].workers| && states[i].workers[w].Stopped?
    ensures states[i].put == |c.skips|
    ensures forall j :: 0 <= j < |states[i].input| ==> states[i].input[j].is_break
  {
    RunKeeps(c, steps, states, i);
    StoppedPositive(states[i].workers, w);
  }

  lemma {:induction false} StoppedPositive(workers: seq<Worker>, w: nat)
    requires w < |workers| && workers[w].Stopped?
    ensures StoppedCount(workers) > 0
  {
    if w < |workers| - 1 {
      StoppedPositive(workers[..|workers| - 1], w);
    }
  }

  /** A job marked as interrupted is only ever seen after the interrupt. */
  lemma NoBreakWithoutInterrupt(c: Config, steps: seq<Step>, states: seq<State>, i: nat)
    requires Run(c, steps, states) && i < |states| && !states[i].thread_exit
    ensures forall j :: 0 <= j < |states[i].collected| ==> !states[i].collected[j].is_break
  {
    RunKeeps(c, steps, states, i);
  }

  // ---------- no deadlock ----------

  ghost predicate Stuck(c: Config, s: State) {
    !Done(c, s) && forall step :: Enabled(c, s, step) ==> step.Interrupt?
  }

  lemma {:induction false} FindBusy(workers: seq<Worker>) returns (w: nat)
    requires Busy(workers) > 0
    ensures w < |workers| && Holds(workers[w])
  {
    w := |workers| - 1;
    if !Holds(workers[w]) {
      w := FindBusy(workers[..w]);
    }
  }

  lemma {:induction false} FindIdle(workers: seq<Worker>) returns (w: nat)
    requires Busy(workers) == 0 && StoppedCount(workers) < |workers|
    ensures w < |workers| && workers[w].Idle?
  {
    w := |workers| - 1;
    if !workers[w].Idle? {
      w := FindIdle(workers[..w]);
    }
  }

  lemma {:induction false} AllStopped(workers: seq<Worker>)
    ensures StoppedCount(workers) <= |workers|
    ensures StoppedCount(workers) == |workers| <==> forall w :: 0 <= w < |workers| ==> workers[w].Stopped?
  {
    if workers != [] {
      var n := |workers| - 1;
      AllStopped(workers[..n]);
      assert forall w :: 0 <= w < n ==> workers[..n][w] == workers[w];
      if forall w :: 0 <= w < |workers| ==> workers[w].Stopped? {
        assert workers[n].Stopped?;
      }
    }
  }

  /** Until everything is collected and joined, some thread other than the signal handler can move. */
  lemma SomethingMoves(c: Config, s: State) returns (step: Step)
    requires Inv(c, s) && !Done(c, s) && (c.processors > 0 || c.skips == [])
    ensures Enabled(c, s, step) && !step.Interrupt?
  {
    AllStopped(s.workers);
    if s.put < |c.skips| {
      step := PutJob;
    } else if s.stops < c.processors {
      step := PutStop;
    } else if Busy(s.workers) > 0 {
      var w := FindBusy(s.workers);
      step := match s.workers[w]
        case Taken(_) => Check(w)
        case Running(_) => Finish(w, 0)
        case _ => Report(w);
    } else if StoppedCount(s.workers) < c.processors {
      var w := FindIdle(s.workers);
      step := Get(w);
    } else if |s.collected| < |c.skips| {
      step := Collect;
    } else {
      step := Join;
    }
  }

  lemma {:induction false} QueueAll(c: Config, n: nat) returns (steps: seq<Step>, states: seq<State>)
    requires n <= |c.skips|
    ensures Run(c, steps, states) && |steps| == n
    ensures var s := states[n];
      s.put == n && s.stops == 0 && s.collected == [] && s.output == [] && |s.workers| == c.processors
  {
    if n == 0 {
      steps, states := [], [Init(c)];
    } else {
      steps, states := QueueAll(c, n - 1);
      var s := Apply(c, states[n - 1], PutJob);
      steps, states := steps + [PutJob], states + [s];
    }
  }

  /** Without threads the dispatcher waits for ever for results; otherwise no interleaving gets stuck. */
  lemma DeadlockFreeIffThreads(c: Config)
    ensures (forall steps, states :: Run(c, steps, states) ==> !Stuck(c, states[|steps|]))
      <==> (c.processors > 0 || c.skips == [])
  {
    if c.processors > 0 || c.skips == [] {
      forall steps, states | Run(c, steps, states)
        ensures !Stuck(c, states[|steps|])
      {
        RunKeeps(c, steps, states, |steps|);
        if !Done(c, states[|steps|]) {
          var step := SomethingMoves(c, states[|steps|]);
        }
      }
    } else {
      var steps, states := QueueAll(c, |c.skips|);
      assert Stuck(c, states[|steps|]);
    }
  }

  // ---------- termination ----------

  function JobWeight(job: Job): nat {
    if job.is_break then 1 else 5
  }

  function InputWeight(jobs: seq<Job>): nat {
    if jobs == [] then 0 else InputWeight(jobs[..|jobs| - 1]) + JobWeight(jobs[|jobs| - 1])
  }

  function WorkerWeight(w: Worker): nat {
    match w
    case Taken(_) => 4
    case Running(_) => 3
    case Reporting(_) => 2
    case _ => 0
  }

  function WorkersWeight(workers: seq<Worker>): nat {
    if workers == [] then 0 else WorkersWeight(workers[..|workers| - 1]) + WorkerWeight(workers[|workers| - 1])
  }

  /** How many more steps the threads can take. */
  function StepsLeft(c: Config, s: State): int {
    6 * (|c.skips| - s.put) + 2 * (c.processors - s.stops) + InputWeight(s.input)
      + WorkersWeight(s.workers) + |s.output| + (c.processors - s.joined)
  }

  lemma {:induction false} InputWeightHead(jobs: seq<Job>)
    requires jobs != []
    ensures InputWeight(jobs) == JobWeight(jobs[0]) + InputWeight(jobs[1..])
  {
    if |jobs| > 1 {
      var front := jobs[..|jobs| - 1];
      InputWeightHead(front);
      assert jobs[1..][..|jobs| - 2] == front[1..];
    }
  }

  lemma {:induction false} WeightUpdate(workers: seq<Worker>, w: nat, x: Worker)
    requires w < |workers|
    ensures WorkersWeight(workers[w := x]) == WorkersWeight(workers) - WorkerWeight(workers[w]) + WorkerWeight(x)
    decreases |workers|
  {
    var n := |workers| - 1;
    if w == n {
      assert workers[w := x][..n] == workers[..n];
    } else {
      WeightUpdate(workers[..n], w, x);
      assert workers[w := x][..n] == workers[..n][w := x];
    }
  }

  lemma WorkerStepCosts(c: Config, s: State, step: Step)
    requires Enabled(c, s, step) && (step.Get? || step.Check? || step.Finish? || step.Report?)
    ensures StepsLeft(c, Apply(c, s, step)) < StepsLeft(c, s)
  {
    WeightUpdate(s.workers, step.w, Apply(c, s, step).workers[step.w]);
    if step.Get? {
      InputWeightHead(s.input);
    }
  }

  /** Every step except the delivery of a signal uses up at least one of the steps left. */
  lemma StepCosts(c: Config, s: State, step: Step)
    requires PhaseInv(c, s) && Enabled(c, s, step)
    ensures 0 <= StepsLeft(c, s)
    ensures StepsLeft(c, Apply(c, s, step)) <= StepsLeft(c, s) - (if step.Interrupt? then 0 else 1)
  {
    if step.Get? || step.Check? || step.Finish? || step.Report? {
      WorkerStepCosts(c, s, step);
    } else if step.PutJob? || step.PutStop? {
      assert Apply(c, s, step).input[..|s.input|] == s.input;
    }
  }

  /** The steps of a run that are not deliveries of the signal. */
  function Moves(steps: seq<Step>): nat {
    if steps == [] then 0 else Moves(steps[..|steps| - 1]) + if steps[|steps| - 1].Interrupt? then 0 else 1
  }

  lemma RunFront(c: Config, steps: seq<Step>, states: seq<State>)
    requires Run(c, steps, states) && steps != []
    ensures Run(c, steps[..|steps| - 1], states[..|steps|])
  {
    var front, before := steps[..|steps| - 1], states[..|steps|];
    forall i | 0 <= i < |front|
      ensures Enabled(c, before[i], front[i]) && before[i + 1] == Apply(c, before[i], front[i])
    {
      assert front[i] == steps[i];
    }
  }

  lemma {:induction false} MovesLeft(c: Config, steps: seq<Step>, states: seq<State>)
    requires Run(c, steps, states)
    ensures Moves(steps) + StepsLeft(c, states[|steps|]) <= 6 * |c.skips| + 3 * c.processors
    decreases |steps|
  {
    if steps == [] {
      IdleWeight(c.processors);
    } else {
      var n := |steps| - 1;
      RunFront(c, steps, states);
      MovesLeft(c, steps[..n], states[..|steps|]);
      RunKeeps(c, steps, states, n);
      assert Enabled(c, states[n], steps[n]);
      StepCosts(c, states[n], steps[n]);
    }
  }

  lemma {:induction false} IdleWeight(n: nat)
    ensures WorkersWeight(seq(n, _ => Idle)) == 0
  {
    if n > 0 {
      IdleWeight(n - 1);
      assert seq(n, _ => Idle)[..n - 1] == seq(n - 1, _ => Idle);
    }
  }

  /** Every interleaving ends: six steps per job and three per thread are the most there can be. */
  lemma RunsAreShort(c: Config, steps: seq<Step>, states: seq<State>)
    requires Run(c, steps, states)
    ensures Moves(steps) <= 6 * |c.skips| + 3 * c.processors
  {
    MovesLeft(c, steps, states);
    RunKeeps(c, steps, states, |steps|);
    StepCosts(c, states[|steps|], Interrupt);
  }

  // ---------- the accounts at the end ----------

  function Broken(results: seq<Job>): nat {
    if results == [] then 0
    else Broken(results[..|results| - 1]) + if results[|results| - 1].is_break then 1 else 0
  }

  predicate Good(job: Job) {
    !job.is_break && (job.is_skip || job.returncode == 0)
  }

  lemma {:induction false} TallyAdds(results: seq<Job>)
    ensures var t := TallyOf(results);
      && t.passed + t.failed + t.valgrind + t.crashed + t.skipped == |results| - Broken(results)
      && t.passed + t.skipped <= |results|
      && (t.passed + t.skipped == |results| <==> forall i :: 0 <= i < |results| ==> Good(results[i]))
  {
    if results != [] {
      var n := |results| - 1;
      TallyAdds(results[..n]);
      assert forall i :: 0 <= i < n ==> results[..n][i] == results[i];
      if forall i :: 0 <= i < |results| ==> Good(results[i]) {
        assert Good(results[n]);
      }
    }
  }

  /** The positions of the results of one kind. */
  function Kind(results: seq<Job>, kind: Job -> bool): set<int> {
    set i | 0 <= i < |results| && kind(results[i])
  }

  const SKIPPED: Job -> bool := (job: Job) => !job.is_break && job.is_skip

  /** The results of the jobs that were executed, with such a return code. */
  function Ended(code: int -> bool): Job -> bool {
    (job: Job) => !job.is_break && !job.is_skip && code(job.returncode)
  }

  const PASSED := Ended((code: int) => code == 0)
  const FAILED := Ended((code: int) => code == 1)
  const VALGRIND := Ended((code: int) => code == 2)
  const CRASHED := Ended((code: int) => code !in {0, 1, 2})

  /** Every counter is the number of the results of its kind. */
  ghost predicate Counted(t: Tally, results: seq<Job>) {
    && t.passed == |Kind(results, PASSED)|
    && t.failed == |Kind(results, FAILED)|
    && t.valgrind == |Kind(results, VALGRIND)|
    && t.crashed == |Kind(results, CRASHED)|
    && t.skipped == |Kind(results, SKIPPED)|
  }

  lemma KindLast(results: seq<Job>, kind: Job -> bool)
    requires results != []
    ensures |Kind(results, kind)|
      == |Kind(results[..|results| - 1], kind)| + if kind(results[|results| - 1]) then 1 else 0
  {
    var n := |results| - 1;
    assert Kind(results, kind) == Kind(results[..n], kind) + if kind(results[n]) then {n} else {};
  }

  lemma {:induction false} TallyCounts(results: seq<Job>)
    ensures Counted(TallyOf(results), results)
  {
    if results != [] {
      TallyCounts(results[..|results| - 1]);
      KindLast(results, PASSED);
      KindLast(results, FAILED);
      KindLast(results, VALGRIND);
      KindLast(results, CRASHED);
      KindLast(results, SKIPPED);
    }
  }

  // ---------- every result comes from one execution ----------

  /** The exit code that a step reports for a ticket, if it is the end of that job's execution. */
  function CodeOf(s: State, step: Step, t: nat): seq<int> {
    if step.Finish? && step.w < |s.workers| && HeldBy(s.workers[step.w], t) == 1 then [step.code] else []
  }

  /** The codes of all executions of a ticket's job in the first n steps. */
  function Codes(steps: seq<Step>, states: seq<State>, n: nat, t: nat): seq<int>
    requires n <= |steps| < |states|
  {
    if n == 0 then [] else Codes(steps, states, n - 1, t) + CodeOf(states[n - 1], steps[n - 1], t)
  }

  /** A job that is neither interrupted nor skipped was executed once, with its return code; others never. */
  function Executions(job: Job): seq<int> {
    if job.is_break || job.is_skip then [] else [job.returncode]
  }

  predicate HeldCodes(w: Worker, t: nat, codes: seq<int>) {
    HeldBy(w, t) == 1 ==> codes == if w.Reporting? then Executions(w.job) else []
  }

  ghost predicate QueuedCodes(jobs: seq<Job>, t: nat, codes: seq<int>) {
    forall i :: 0 <= i < |jobs| && jobs[i].ticket == t ==> codes == Executions(jobs[i])
  }

  ghost predicate Accounted(c: Config, s: State, t: nat, codes: seq<int>) {
    && (GoneJobs(c, s) <= t ==> codes == [])
    && (forall w :: 0 <= w < |s.workers| ==> HeldCodes(s.workers[w], t, codes))
    && QueuedCodes(s.output, t, codes)
    && QueuedCodes(s.collected, t, codes)
  }

  lemma {:induction false} HeldAtLeast(workers: seq<Worker>, v: nat, t: nat)
    requires v < |workers|
    ensures Held(workers, t) >= HeldBy(workers[v], t)
  {
    var n := |workers| - 1;
    if v < n {
      HeldAtLeast(workers[..n], v, t);
    }
  }

  lemma HeldTwice(workers: seq<Worker>, w: nat, v: nat, t: nat)
    requires w < |workers| && v < |workers| && w != v
    ensures Held(workers, t) >= HeldBy(workers[w], t) + HeldBy(workers[v], t)
  {
    HeldUpdate(workers, w, Idle, t);
    HeldAtLeast(workers[w := Idle], v, t);
  }

  lemma {:induction false} OccursAtLeast(jobs: seq<Job>, i: nat)
    requires i < |jobs|
    ensures Occurs(jobs, jobs[i].ticket) >= 1
  {
    var n := |jobs| - 1;
    if i < n {
      OccursAtLeast(jobs[..n], i);
    }
  }

  /** A job that a worker holds is nowhere else. */
  lemma HeldAlone(c: Config, s: State, w: nat, t: nat)
    requires Inv(c, s) && w < |s.workers| && HeldBy(s.workers[w], t) == 1
    ensures t < GoneJobs(c, s)
    ensures forall v :: 0 <= v < |s.workers| && v != w ==> HeldBy(s.workers[v], t) == 0
    ensures forall i :: 0 <= i < |s.output| ==> s.output[i].ticket != t
    ensures forall i :: 0 <= i < |s.collected| ==> s.collected[i].ticket != t
  {
    HeldAtLeast(s.workers, w, t);
    assert Places(s, t) == if t < GoneJobs(c, s) then 1 else 0;
    forall v | 0 <= v < |s.workers| && v != w
      ensures HeldBy(s.workers[v], t) == 0
    {
      HeldTwice(s.workers, w, v, t);
    }
    forall i | 0 <= i < |s.output|
      ensures s.output[i].ticket != t
    {
      OccursAtLeast(s.output, i);
    }
    forall i | 0 <= i < |s.collected|
      ensures s.collected[i].ticket != t
    {
      OccursAtLeast(s.collected, i);
    }
  }

  /** A finished process adds its code to the job that was running, which had none. */
  lemma FinishAccounts(c: Config, s: State, w: nat, code: int, t: nat, codes: seq<int>)
    requires Inv(c, s) && Enabled(c, s, Finish(w, code)) && Accounted(c, s, t, codes)
    ensures Accounted(c, Apply(c, s, Finish(w, code)), t, codes + CodeOf(s, Finish(w, code), t))
  {
    var s' := Apply(c, s, Finish(w, code));
    assert WorkerInv(c, s, s.workers[w]) && HeldCodes(s.workers[w], t, codes);
    if HeldBy(s.workers[w], t) == 1 {
      HeldAlone(c, s, w, t);
      assert codes + CodeOf(s, Finish(w, code), t) == [code];
    } else {
      assert codes + CodeOf(s, Finish(w, code), t) == codes;
    }
    forall v | 0 <= v < |s'.workers|
      ensures HeldCodes(s'.workers[v], t, codes + CodeOf(s, Finish(w, code), t))
    {
      assert HeldCodes(s.workers[v], t, codes);
    }
  }

  lemma OtherHeldCodes(c: Config, s: State, step: Step, t: nat, codes: seq<int>)
    requires Inv(c, s) && Enabled(c, s, step) && Accounted(c, s, t, codes) && !step.Finish?
    ensures var workers := Apply(c, s, step).workers; forall v :: 0 <= v < |workers| ==> HeldCodes(workers[v], t, codes)
  {
    var s' := Apply(c, s, step);
    forall v | 0 <= v < |s'.workers|
      ensures HeldCodes(s'.workers[v], t, codes)
    {
      assert HeldCodes(s.workers[v], t, codes) && WorkerInv(c, s, s.workers[v]);
    }
  }

  lemma OtherAccounts(c: Config, s: State, step: Step, t: nat, codes: seq<int>)
    requires Inv(c, s) && Enabled(c, s, step) && Accounted(c, s, t, codes) && !step.Finish?
    ensures Accounted(c, Apply(c, s, step), t, codes)
  {
    OtherHeldCodes(c, s, step, t, codes);
    if step.Report? {
      assert HeldCodes(s.workers[step.w], t, codes);
    }
    if step.Collect? {
      assert s.output[0].ticket == t ==> codes == Executions(s.output[0]);
    }
  }

  lemma StepAccounts(c: Config, s: State, step: Step, t: nat, codes: seq<int>)
    requires Inv(c, s) && Enabled(c, s, step) && Accounted(c, s, t, codes)
    ensures Accounted(c, Apply(c, s, step), t, codes + CodeOf(s, step, t))
  {
    if step.Finish? {
      FinishAccounts(c, s, step.w, step.code, t, codes);
    } else {
      OtherAccounts(c, s, step, t, codes);
      assert codes + CodeOf(s, step, t) == codes;
    }
  }

  lemma {:induction false} AllAccounted(c: Config, steps: seq<Step>, states: seq<State>, n: nat, t: nat)
    requires Run(c, steps, states) && n <= |steps|
    ensures Accounted(c, states[n], t, Codes(steps, states, n, t))
  {
    if n > 0 {
      var s, step := states[n - 1], steps[n - 1];
      AllAccounted(c, steps, states, n - 1, t);
      RunKeeps(c, steps, states, n - 1);
      assert Enabled(c, s, step) && states[n] == Apply(c, s, step);
      StepAccounts(c, s, step, t, Codes(steps, states, n - 1, t));
    }
  }

  /** In every interleaving a collected job carries the code of its one execution, or was never executed. */
  lemma ResultsAreExecutions(c: Config, steps: seq<Step>, states: seq<State>, n: nat)
    requires Run(c, steps, states) && n <= |steps|
    ensures forall i :: 0 <= i < |states[n].collected| ==>
      var job := states[n].collected[i]; Codes(steps, states, n, job.ticket) == Executions(job)
  {
    forall i | 0 <= i < |states[n].collected|
      ensures var job := states[n].collected[i]; Codes(steps, states, n, job.ticket) == Executions(job)
    {
      AllAccounted(c, steps, states, n, states[n].collected[i].ticket);
    }
  }

  /** The value `run_tests` returns. */
  function ExitStatus(c: Config, s: State): int {
    if s.tally.passed + s.tally.skipped == |c.skips| then 0 else 1
  }

  /**
   However the threads interleave and whenever the signal comes: at the end every
   job has been collected exactly once, every thread has stopped, nothing is left
   in a queue, the counters add up, and the status is 0 exactly when no job was
   interrupted and every job that was not skipped returned 0.  The return code of a
   job is that of its one execution; skipped and interrupted jobs have none.
   */
  lemma {:induction false} FinalAccount(c: Config, steps: seq<Step>, states: seq<State>)
    requires Run(c, steps, states) && Done(c, states[|steps|])
    ensures
      var s := states[|steps|];
      && (forall t: nat :: Occurs(s.collected, t) == if t < |c.skips| then 1 else 0)
      && (forall i :: 0 <= i < |s.collected| ==>
           s.collected[i].ticket < |c.skips| && s.collected[i].is_skip == c.skips[s.collected[i].ticket])
      && s.input == [] && s.output == [] && (forall w :: 0 <= w < |s.workers| ==> s.workers[w].Stopped?)
      && s.tally.passed + s.tally.failed + s.tally.valgrind + s.tally.crashed + s.tally.skipped
           == |c.skips| - Broken(s.collected)
      && Counted(s.tally, s.collected)
      && (ExitStatus(c, s) == 0 <==> forall i :: 0 <= i < |s.collected| ==> Good(s.collected[i]))
      && (forall i :: 0 <= i < |s.collected| ==>
           Codes(steps, states, |steps|, s.collected[i].ticket) == Executions(s.collected[i]))
  {
    var s := states[|steps|];
    RunKeeps(c, steps, states, |steps|);
    AllStopped(s.workers);
    TallyAdds(s.collected);
    TallyCounts(s.collected);
    ResultsAreExecutions(c, steps, states, |steps|);
    assert Busy(s.workers) == 0 && s.output == [];
    forall t: nat
      ensures Occurs(s.collected, t) == if t < |c.skips| then 1 else 0
    {
      NotBusyNotHeld(s.workers, t);
      assert Places(s, t) == if t < GoneJobs(c, s) then 1 else 0;
    }
    forall i | 0 <= i < |s.collected|
      ensures s.collected[i].ticket < |c.skips| && s.collected[i].is_skip == c.skips[s.collected[i].ticket]
    {
      assert Genuine(c, s, s.collected[i]);
    }
  }

  // ---------- every item is taken once ----------

  /** The step takes the item with the ticket off the input queue. */
  predicate Takes(s: State, step: Step, t: nat) {
    step.Get? && s.input != [] && s.input[0].ticket == t
  }

  /** In the step worker w takes a stop job. */
  predicate Exits(s: State, step: Step, w: nat) {
    step == Get(w) && s.input != [] && s.input[0].is_break
  }

  /** How many of the first n steps take the item with the ticket. */
  function Takings(steps: seq<Step>, states: seq<State>, n: nat, t: nat): nat
    requires n <= |steps| < |states|
  {
    if n == 0 then 0
    else Takings(steps, states, n - 1, t) + if Takes(states[n - 1], steps[n - 1], t) then 1 else 0
  }

  /** In how many of them worker w takes a stop job. */
  function Exitings(steps: seq<Step>, states: seq<State>, n: nat, w: nat): nat
    requires n <= |steps| < |states|
  {
    if n == 0 then 0
    else Exitings(steps, states, n - 1, w) + if Exits(states[n - 1], steps[n - 1], w) then 1 else 0
  }

  /** Only taking an item counts as one gone, and what is taken is the next one. */
  lemma StepTakes(c: Config, s: State, step: Step, t: nat)
    requires InputInv(c, s) && Enabled(c, s, step)
    ensures (t < Gone(Apply(c, s, step))) <==> t < Gone(s) || Takes(s, step, t)
    ensures Takes(s, step, t) ==> t == Gone(s)
  {
    if step.Get? {
      assert s.input[0].ticket == Gone(s) + 0;
    }
  }

  /** A worker stops by taking a stop job, and a stopped one takes nothing. */
  lemma StepExits(c: Config, s: State, step: Step, w: nat)
    requires w < |s.workers| && Enabled(c, s, step)
    ensures |Apply(c, s, step).workers| == |s.workers|
    ensures Apply(c, s, step).workers[w].Stopped? <==> s.workers[w].Stopped? || Exits(s, step, w)
    ensures Exits(s, step, w) ==> !s.workers[w].Stopped?
  {
  }

  lemma RunTakes(c: Config, steps: seq<Step>, states: seq<State>, i: nat, t: nat)
    requires Run(c, steps, states) && i < |steps|
    ensures (t < Gone(states[i + 1])) <==> t < Gone(states[i]) || Takes(states[i], steps[i], t)
    ensures Takes(states[i], steps[i], t) ==> t == Gone(states[i])
  {
    RunKeeps(c, steps, states, i);
    assert Enabled(c, states[i], steps[i]);
    StepTakes(c, states[i], steps[i], t);
  }

  lemma {:induction false} TakenWhenGone(c: Config, steps: seq<Step>, states: seq<State>, n: nat, t: nat)
    requires Run(c, steps, states) && n <= |steps|
    ensures Takings(steps, states, n, t) == if t < Gone(states[n]) then 1 else 0
  {
    if n > 0 {
      TakenWhenGone(c, steps, states, n - 1, t);
      RunTakes(c, steps, states, n - 1, t);
    }
  }

  lemma {:induction false} ExitedWhenStopped(c: Config, steps: seq<Step>, states: seq<State>, n: nat, w: nat)
    requires Run(c, steps, states) && n <= |steps| && w < c.processors
    ensures w < |states[n].workers|
    ensures Exitings(steps, states, n, w) == if states[n].workers[w].Stopped? then 1 else 0
  {
    if n > 0 {
      ExitedWhenStopped(c, steps, states, n - 1, w);
      assert Enabled(c, states[n - 1], steps[n - 1]);
      StepExits(c, states[n - 1], steps[n - 1], w);
    }
  }

  /**
   In a whole run every real job and every stop job has been taken from the queue
   once, and each worker took one stop job.
   */
  lemma TakenOnce(c: Config, steps: seq<Step>, states: seq<State>)
    requires Run(c, steps, states) && Done(c, states[|steps|])
    ensures forall t: nat :: Takings(steps, states, |steps|, t) == if t < |c.skips| + c.processors then 1 else 0
    ensures forall w: nat :: w < c.processors ==> Exitings(steps, states, |steps|, w) == 1
  {
    var s := states[|steps|];
    FinalAccount(c, steps, states);
    RunKeeps(c, steps, states, |steps|);
    assert Gone(s) == |c.skips| + c.processors;
    forall t: nat
      ensures Takings(steps, states, |steps|, t) == if t < |c.skips| + c.processors then 1 else 0
    {
      TakenWhenGone(c, steps, states, |steps|, t);
    }
    forall w: nat | w < c.processors
      ensures Exitings(steps, states, |steps|, w) == 1
    {
      ExitedWhenStopped(c, steps, states, |steps|, w);
    }
  }

  /** The jobs reported in the first n steps, in the order in which the workers put them on the output queue. */
  function Reports(steps: seq<Step>, states: seq<State>, n: nat): seq<Job>
    requires n <= |steps| < |states|
  {
    if n == 0 then []
    else
      var s, step := states[n - 1], steps[n - 1];
      Reports(steps, states, n - 1) +
        if step.Report? && step.w < |s.workers| && Holds(s.workers[step.w]) then [s.workers[step.w].job] else []
  }

  /** Results are collected in the order in which they were reported; the rest is still queued. */
  lemma {:induction false} CollectedInOrder(c: Config, steps: seq<Step>, states: seq<State>, n: nat)
    requires Run(c, steps, states) && n <= |steps|
    ensures Reports(steps, states, n) == states[n].collected + states[n].output
  {
    if n > 0 {
      CollectedInOrder(c, steps, states, n - 1);
      assert Enabled(c, states[n - 1], steps[n - 1]);
    }
  }

  lemma {:induction false} NotBusyNotHeld(workers: seq<Worker>, t: nat)
    requires Busy(workers) == 0
    ensures Held(workers, t) == 0
  {
    if workers != [] {
      NotBusyNotHeld(workers[..|workers| - 1], t);
    }
  }

  /** The collecting loop over the results in the order they arrive, and the final test. */
  method CollectResults(total_tests: nat, results: seq<Job>) returns (tally: Tally, status: int)
    requires |results| == total_tests
    ensures tally == TallyOf(results) && Counted(tally, results)
    ensures status == 0 <==> forall i :: 0 <= i < |results| ==> Good(results[i])
    ensures status == 0 || status == 1
  {
    var passed_tests, failed_tests, crashed_tests, valgrind_errors, skipped_tests := 0, 0, 0, 0, 0;
    for i := 0 to total_tests
      invariant TallyOf(results[..i]) ==
        Tally(passed_tests, failed_tests, valgrind_errors, crashed_tests, skipped_tests)
    {
      var job := results[i];
      assert results[..i + 1][..i] == results[..i];
      if job.is_break {
        continue;
      }
      if job.is_skip {
        skipped_tests := skipped_tests + 1;
      } else if job.returncode == 0 {
        passed_tests := passed_tests + 1;
      } else if job.returncode == 1 {
        failed_tests := failed_tests + 1;
      } else if job.returncode == 2 {
        valgrind_errors := valgrind_errors + 1;
      } else {
        crashed_tests := crashed_tests + 1;
      }
    }
    assert results[..total_tests] == results;
    TallyAdds(results);
    TallyCounts(results);
    tally := Tally(passed_tests, failed_tests, valgrind_errors, crashed_tests, skipped_tests);
    status := if passed_tests + skipped_tests == total_tests then 0 else 1;
  }
}
