/** test.py: what the interrupt does to the jobs. */
module WorkerInterrupt {
  import opened WorkerProtocol

  // ---------- the flag ----------

  ghost predicate Signalled(steps: seq<Step>, n: nat)
    requires n <= |steps|
  {
    exists k :: 0 <= k < n && steps[k].Interrupt?
  }

  /** The flag is up exactly when the signal has been delivered; it is never taken down. */
  lemma {:induction false} FlagIffSignalled(c: Config, steps: seq<Step>, states: seq<State>, n: nat)
    requires Run(c, steps, states) && n <= |steps|
    ensures states[n].thread_exit <==> Signalled(steps, n)
  {
    if n > 0 {
      FlagIffSignalled(c, steps, states, n - 1);
      assert Enabled(c, states[n - 1], steps[n - 1]);
    }
  }

  lemma FlagStays(c: Config, steps: seq<Step>, states: seq<State>, n: nat, m: nat)
    requires Run(c, steps, states) && n <= m <= |steps| && states[n].thread_exit
    ensures states[m].thread_exit
  {
    FlagIffSignalled(c, steps, states, n);
    FlagIffSignalled(c, steps, states, m);
  }

  // ---------- nothing is started after the signal ----------

  lemma {:induction false} RunningSince(c: Config, steps: seq<Step>, states: seq<State>, n: nat, m: nat, w: nat)
    requires Run(c, steps, states) && n <= m <= |steps| && states[n].thread_exit
    requires w < |states[m].workers| && states[m].workers[w].Running?
    ensures w < |states[n].workers| && states[n].workers[w] == states[m].workers[w]
    decreases m
  {
    if n < m {
      FlagStays(c, steps, states, n, m - 1);
      assert Enabled(c, states[m - 1], steps[m - 1]);
      RunningSince(c, steps, states, n, m - 1, w);
    }
  }

  /** A process that ends after the signal runs a job that its worker was running already when the signal came. */
  lemma NothingStartsAfterSignal(c: Config, steps: seq<Step>, states: seq<State>, n: nat, m: nat, w: nat, code: int)
    requires Run(c, steps, states) && n <= m < |steps| && Signalled(steps, n) && steps[m] == Finish(w, code)
    ensures w < |states[n].workers| && states[n].workers[w].Running? && states[n].workers[w] == states[m].workers[w]
  {
    assert Enabled(c, states[m], steps[m]);
    FlagIffSignalled(c, steps, states, n);
    RunningSince(c, steps, states, n, m, w);
  }

  // ---------- what a worker sees decides about its job ----------

  /** What the worker that holds the ticket sees, if the step is its look at the flag. */
  function LookOf(s: State, step: Step, t: nat): seq<bool> {
    if step.Check? && step.w < |s.workers| && HeldBy(s.workers[step.w], t) == 1 then [s.thread_exit] else []
  }

  /** All looks at the flag on behalf of a ticket in the first n steps. */
  function Looks(steps: seq<Step>, states: seq<State>, n: nat, t: nat): seq<bool>
    requires n <= |steps| < |states|
  {
    if n == 0 then [] else Looks(steps, states, n - 1, t) + LookOf(states[n - 1], steps[n - 1], t)
  }

  predicate HeldLooks(w: Worker, t: nat, looks: seq<bool>) {
    HeldBy(w, t) == 1 ==> looks == if w.Taken? then [] else [w.job.is_break]
  }

  ghost predicate QueuedLooks(jobs: seq<Job>, t: nat, looks: seq<bool>) {
    forall i :: 0 <= i < |jobs| && jobs[i].ticket == t ==> looks == [jobs[i].is_break]
  }

  ghost predicate Looked(c: Config, s: State, t: nat, looks: seq<bool>) {
    && (GoneJobs(c, s) <= t ==> looks == [])
    && (forall w :: 0 <= w < |s.workers| ==> HeldLooks(s.workers[w], t, looks))
    && QueuedLooks(s.output, t, looks)
    && QueuedLooks(s.collected, t, looks)
  }

  /** The look of a worker is the first one for the job that it holds. */
  lemma CheckLooks(c: Config, s: State, w: nat, t: nat, looks: seq<bool>)
    requires Inv(c, s) && Enabled(c, s, Check(w)) && Looked(c, s, t, looks)
    ensures Looked(c, Apply(c, s, Check(w)), t, looks + LookOf(s, Check(w), t))
  {
    var s' := Apply(c, s, Check(w));
    var looks' := looks + LookOf(s, Check(w), t);
    assert WorkerInv(c, s, s.workers[w]) && HeldLooks(s.workers[w], t, looks);
    if HeldBy(s.workers[w], t) == 1 {
      HeldAlone(c, s, w, t);
      assert looks' == [s.thread_exit];
    } else {
      assert looks' == looks;
    }
    forall v | 0 <= v < |s'.workers|
      ensures HeldLooks(s'.workers[v], t, looks')
    {
      assert HeldLooks(s.workers[v], t, looks);
    }
  }

  lemma OtherHeldLooks(c: Config, s: State, step: Step, t: nat, looks: seq<bool>)
    requires Inv(c, s) && Enabled(c, s, step) && Looked(c, s, t, looks) && !step.Check?
    ensures var workers := Apply(c, s, step).workers; forall v :: 0 <= v < |workers| ==> HeldLooks(workers[v], t, looks)
  {
    var s' := Apply(c, s, step);
    forall v | 0 <= v < |s'.workers|
      ensures HeldLooks(s'.workers[v], t, looks)
    {
      assert HeldLooks(s.workers[v], t, looks) && WorkerInv(c, s, s.workers[v]);
    }
  }

  lemma OtherLooks(c: Config, s: State, step: Step, t: nat, looks: seq<bool>)
    requires Inv(c, s) && Enabled(c, s, step) && Looked(c, s, t, looks) && !step.Check?
    ensures Looked(c, Apply(c, s, step), t, looks)
  {
    OtherHeldLooks(c, s, step, t, looks);
    if step.Report? {
      assert HeldLooks(s.workers[step.w], t, looks);
    }
    if step.Collect? {
      assert s.output[0].ticket == t ==> looks == [s.output[0].is_break];
    }
  }

  lemma StepLooks(c: Config, s: State, step: Step, t: nat, looks: seq<bool>)
    requires Inv(c, s) && Enabled(c, s, step) && Looked(c, s, t, looks)
    ensures Looked(c, Apply(c, s, step), t, looks + LookOf(s, step, t))
  {
    if step.Check? {
      CheckLooks(c, s, step.w, t, looks);
    } else {
      OtherLooks(c, s, step, t, looks);
      assert looks + LookOf(s, step, t) == looks;
    }
  }

  lemma {:induction false} AllLooked(c: Config, steps: seq<Step>, states: seq<State>, n: nat, t: nat)
    requires Run(c, steps, states) && n <= |steps|
    ensures Looked(c, states[n], t, Looks(steps, states, n, t))
  {
    if n > 0 {
      var s, step := states[n - 1], steps[n - 1];
      AllLooked(c, steps, states, n - 1, t);
      RunKeeps(c, steps, states, n - 1);
      assert Enabled(c, s, step) && states[n] == Apply(c, s, step);
      StepLooks(c, s, step, t, Looks(steps, states, n - 1, t));
    }
  }

  /** For every collected job a worker looked at the flag once, and the job is marked exactly if the flag was up. */
  lemma MarkedIffFlagSeen(c: Config, steps: seq<Step>, states: seq<State>, n: nat)
    requires Run(c, steps, states) && n <= |steps|
    ensures forall i :: 0 <= i < |states[n].collected| ==>
      var job := states[n].collected[i]; Looks(steps, states, n, job.ticket) == [job.is_break]
  {
    forall i | 0 <= i < |states[n].collected|
      ensures var job := states[n].collected[i]; Looks(steps, states, n, job.ticket) == [job.is_break]
    {
      AllLooked(c, steps, states, n, states[n].collected[i].ticket);
    }
  }

  lemma {:induction false} LooksGrow(steps: seq<Step>, states: seq<State>, m: nat, n: nat, t: nat)
    requires m < n <= |steps| < |states|
    ensures forall flag :: flag in LookOf(states[m], steps[m], t) ==> flag in Looks(steps, states, n, t)
    decreases n
  {
    if m + 1 < n {
      LooksGrow(steps, states, m, n - 1, t);
    }
  }

  /** A job at which a worker looks after the signal is collected marked, and has never been executed. */
  lemma LookedAtAfterSignal(c: Config, steps: seq<Step>, states: seq<State>, m: nat, w: nat, n: nat, i: nat)
    requires Run(c, steps, states) && m < n <= |steps| && steps[m] == Check(w) && Signalled(steps, m)
    requires i < |states[n].collected| && w < |states[m].workers| && states[m].workers[w].Taken?
    requires states[n].collected[i].ticket == states[m].workers[w].job.ticket
    ensures states[n].collected[i].is_break && Codes(steps, states, n, states[n].collected[i].ticket) == []
  {
    var job := states[n].collected[i];
    FlagIffSignalled(c, steps, states, m);
    MarkedIffFlagSeen(c, steps, states, n);
    ResultsAreExecutions(c, steps, states, n);
    LooksGrow(steps, states, m, n, job.ticket);
    assert LookOf(states[m], steps[m], job.ticket) == [true];
    assert true in Looks(steps, states, n, job.ticket);
  }

  /** Some worker looks at the flag after the signal. */
  ghost predicate LookedLate(steps: seq<Step>) {
    exists m :: 0 <= m < |steps| && steps[m].Check? && Signalled(steps, m)
  }

  lemma {:induction false} LateLook(steps: seq<Step>, states: seq<State>, n: nat, t: nat) returns (m: nat)
    requires n <= |steps| < |states| && true in Looks(steps, states, n, t)
    ensures m < n && steps[m].Check? && states[m].thread_exit
  {
    if true in Looks(steps, states, n - 1, t) {
      m := LateLook(steps, states, n - 1, t);
    } else {
      m := n - 1;
    }
  }

  lemma {:induction false} CollectedOne(jobs: seq<Job>, t: nat) returns (i: nat)
    requires Occurs(jobs, t) > 0
    ensures i < |jobs| && jobs[i].ticket == t
  {
    i := |jobs| - 1;
    if jobs[i].ticket != t {
      i := CollectedOne(jobs[..i], t);
    }
  }

  lemma LooksAtRealJob(c: Config, steps: seq<Step>, states: seq<State>, m: nat, w: nat)
    requires Run(c, steps, states) && m < |steps| && steps[m] == Check(w)
    ensures w < |states[m].workers| && states[m].workers[w].Taken? && states[m].workers[w].job.ticket < |c.skips|
  {
    RunKeeps(c, steps, states, m);
    assert Enabled(c, states[m], steps[m]) && WorkerInv(c, states[m], states[m].workers[w]);
  }

  lemma AllCollected(c: Config, steps: seq<Step>, states: seq<State>, t: nat) returns (i: nat)
    requires Run(c, steps, states) && Done(c, states[|steps|]) && t < |c.skips|
    ensures i < |states[|steps|].collected| && states[|steps|].collected[i].ticket == t
  {
    FinalAccount(c, steps, states);
    i := CollectedOne(states[|steps|].collected, t);
  }

  lemma LateJobIsMarked(c: Config, steps: seq<Step>, states: seq<State>, m: nat)
    requires Run(c, steps, states) && Done(c, states[|steps|])
    requires m < |steps| && steps[m].Check? && Signalled(steps, m)
    ensures exists i :: 0 <= i < |states[|steps|].collected| && states[|steps|].collected[i].is_break
  {
    LooksAtRealJob(c, steps, states, m, steps[m].w);
    var i := AllCollected(c, steps, states, states[m].workers[steps[m].w].job.ticket);
    LookedAtAfterSignal(c, steps, states, m, steps[m].w, |steps|, i);
  }

  lemma MarkedJobIsLate(c: Config, steps: seq<Step>, states: seq<State>, i: nat)
    requires Run(c, steps, states) && i < |states[|steps|].collected| && states[|steps|].collected[i].is_break
    ensures LookedLate(steps)
  {
    MarkedIffFlagSeen(c, steps, states, |steps|);
    var t := states[|steps|].collected[i].ticket;
    assert Looks(steps, states, |steps|, t)[0];
    var m := LateLook(steps, states, |steps|, t);
    FlagIffSignalled(c, steps, states, m);
  }

  lemma MarkedJobFails(c: Config, steps: seq<Step>, states: seq<State>, i: nat)
    requires Run(c, steps, states) && Done(c, states[|steps|])
    requires i < |states[|steps|].collected| && states[|steps|].collected[i].is_break
    ensures ExitStatus(c, states[|steps|]) == 1
  {
    FinalAccount(c, steps, states);
    assert !Good(states[|steps|].collected[i]);
  }

  /**
   At the end of a run some job is collected marked exactly when some worker looked
   at the flag after the signal; and then the status is 1.
   */
  lemma InterruptDecides(c: Config, steps: seq<Step>, states: seq<State>)
    requires Run(c, steps, states) && Done(c, states[|steps|])
    ensures
      var s := states[|steps|];
      && (LookedLate(steps) <==> exists i :: 0 <= i < |s.collected| && s.collected[i].is_break)
      && (LookedLate(steps) ==> ExitStatus(c, s) == 1)
  {
    if m :| 0 <= m < |steps| && steps[m].Check? && Signalled(steps, m) {
      LateJobIsMarked(c, steps, states, m);
    }
    if i :| 0 <= i < |states[|steps|].collected| && states[|steps|].collected[i].is_break {
      MarkedJobIsLate(c, steps, states, i);
      MarkedJobFails(c, steps, states, i);
    }
  }
}
