/** The task group: goroutines that register with a wait counter only once they run, and a shutdown
    that cancels them, waits for the counter to reach zero, and signals. */
module TaskGroup {
  import opened Sets

  /** `spawned` tasks have a goroutine that has not registered yet; `running` ones have registered
      and not finished. */
  datatype State = State(spawned: set<nat>, running: set<nat>, finished: set<nat>,
                         counter: int, cancelled: bool, waited: bool, signalled: bool)

  const START: State := State({}, {}, {}, 0, false, false, false)

  datatype Step =
    | Spawn(id: nat)
    | SpawnFrom(parent: nat, id: nat)
    | Register(id: nat)
    | Finish(id: nat)
    | Cancel
    | PassWait
    | Signal

  predicate Unused(s: State, id: nat) {
    id !in s.spawned && id !in s.running && id !in s.finished
  }

  predicate Enabled(s: State, step: Step) {
    match step
    case Spawn(id) => Unused(s, id)
    case SpawnFrom(parent, id) => parent in s.running && Unused(s, id)
    case Register(id) => id in s.spawned
    case Finish(id) => id in s.running
    case Cancel => !s.cancelled
    case PassWait => s.cancelled && !s.waited && s.counter == 0
    case Signal => s.waited && !s.signalled
  }

  function Next(s: State, step: Step): State
    requires Enabled(s, step)
  {
    match step
    case Spawn(id) => s.(spawned := s.spawned + {id})
    case SpawnFrom(_, id) => s.(spawned := s.spawned + {id})
    case Register(id) => s.(spawned := s.spawned - {id}, running := s.running + {id}, counter := s.counter + 1)
    case Finish(id) => s.(running := s.running - {id}, finished := s.finished + {id}, counter := s.counter - 1)
    case Cancel => s.(cancelled := true)
    case PassWait => s.(waited := true)
    case Signal => s.(signalled := true)
  }

  // ---------------------------------------------------------------- runs

  /** The steps can be taken one after the other from `s`. */
  ghost predicate Runs(s: State, steps: seq<Step>, n: nat)
    requires n <= |steps|
    decreases n, 0
  {
    n == 0 || (Runs(s, steps, n - 1) && Enabled(Run(s, steps, n - 1), steps[n - 1]))
  }

  ghost function Run(s: State, steps: seq<Step>, n: nat): State
    requires n <= |steps| && Runs(s, steps, n)
    decreases n, 1
  {
    if n == 0 then s else Next(Run(s, steps, n - 1), steps[n - 1])
  }

  ghost predicate Consistent(s: State) {
    && s.counter == |s.running|
    && s.spawned !! s.running && s.spawned !! s.finished && s.running !! s.finished
    && (s.signalled ==> s.waited) && (s.waited ==> s.cancelled)
  }

  lemma {:induction false} StepKeepsCount(s: State, step: Step)
    requires Consistent(s) && Enabled(s, step)
    ensures Consistent(Next(s, step))
  {
  }

  /** In every reachable state, the wait counter is the number of registered unfinished tasks. */
  lemma {:induction false} CounterCountsRunning(s: State, steps: seq<Step>, n: nat)
    requires n <= |steps| && Runs(s, steps, n) && Consistent(s)
    ensures Consistent(Run(s, steps, n))
  {
    if n > 0 {
      CounterCountsRunning(s, steps, n - 1);
      StepKeepsCount(Run(s, steps, n - 1), steps[n - 1]);
    }
  }

  /** Every task some step has created. */
  ghost function Created(steps: seq<Step>, n: nat): set<nat>
    requires n <= |steps|
  {
    if n == 0 then {}
    else
      Created(steps, n - 1)
      + match steps[n - 1] { case Spawn(id) => {id} case SpawnFrom(_, id) => {id} case _ => {} }
  }

  /** No task disappears: each one created is waiting to register, running or finished. */
  lemma {:induction false} TasksAreConserved(steps: seq<Step>, n: nat)
    requires n <= |steps| && Runs(START, steps, n)
    ensures var s := Run(START, steps, n); s.spawned + s.running + s.finished == Created(steps, n)
  {
    if n > 0 {
      TasksAreConserved(steps, n - 1);
    }
  }

  /** Nothing outside the group spawns a task from step `m` on. */
  ghost predicate NoneFromOutside(steps: seq<Step>, m: nat, n: nat)
    requires n <= |steps|
  {
    forall k | m <= k < n :: !steps[k].Spawn?
  }

  /** With no task left to register or to run, none ever runs again. */
  lemma {:induction false} QuietStaysQuiet(s: State, steps: seq<Step>, n: nat)
    requires n <= |steps| && Runs(s, steps, n) && NoneFromOutside(steps, 0, n)
    requires s.spawned == {} && s.running == {}
    ensures Run(s, steps, n).spawned == {} && Run(s, steps, n).running == {}
    ensures Run(s, steps, n).finished == s.finished
  {
    if n > 0 {
      QuietStaysQuiet(s, steps, n - 1);
    }
  }

  lemma {:induction false} RunFromMiddle(s: State, steps: seq<Step>, m: nat, n: nat)
    requires m <= n <= |steps| && Runs(s, steps, n)
    ensures Runs(s, steps, m) && Runs(Run(s, steps, m), steps[m..], n - m)
    ensures Run(Run(s, steps, m), steps[m..], n - m) == Run(s, steps, n)
  {
    if m < n {
      RunFromMiddle(s, steps, m, n - 1);
      assert steps[m..][n - 1 - m] == steps[n - 1];
    }
  }

  /** Main result: if no spawned task is unregistered when the wait passes at step `k`, and nothing
      outside the group spawns afterwards, then from there on, the signal included, every task ever
      created has finished and none runs. */
  lemma {:induction false} ShutdownIsSafe(steps: seq<Step>, k: nat, n: nat)
    requires k < n <= |steps| && Runs(START, steps, n) && steps[k] == PassWait
    requires Runs(START, steps, k) && Run(START, steps, k).spawned == {}
    requires NoneFromOutside(steps, k, n)
    ensures Run(START, steps, n).running == {} && Run(START, steps, n).spawned == {}
    ensures Run(START, steps, n).finished == Created(steps, n)
  {
    var s := Run(START, steps, k);
    WaitPassedAt(steps, k, n);
    CounterCountsRunning(START, steps, k);
    RunFromMiddle(START, steps, k, n);
    QuietStaysQuiet(s, steps[k..], n - k);
    TasksAreConserved(steps, n);
  }

  lemma {:induction false} WaitPassedAt(steps: seq<Step>, k: nat, n: nat)
    requires k < n <= |steps| && Runs(START, steps, n) && steps[k] == PassWait
    ensures Runs(START, steps, k) && Run(START, steps, k).counter == 0
  {
    if k + 1 < n {
      WaitPassedAt(steps, k, n - 1);
    }
  }

  /** Whatever the group does by itself from `s` on, no task runs. */
  ghost predicate NeverRuns(s: State) {
    forall steps: seq<Step>, n: nat | n <= |steps| && Runs(s, steps, n) && NoneFromOutside(steps, 0, n) ::
      Run(s, steps, n).running == {}
  }

  /** The hypothesis is exact: once the counter is zero, the group stays quiet by itself if and only
      if no spawned task is still unregistered. */
  lemma {:induction false} QuietIff(s: State)
    requires Consistent(s) && s.counter == 0
    ensures NeverRuns(s) <==> s.spawned == {}
  {
    if s.spawned == {} {
      forall steps: seq<Step>, n: nat | n <= |steps| && Runs(s, steps, n) && NoneFromOutside(steps, 0, n)
        ensures Run(s, steps, n).running == {}
      {
        QuietStaysQuiet(s, steps, n);
      }
    } else {
      var id := Pick(s.spawned);
      var steps := [Register(id)];
      assert Runs(s, steps, 0);
      assert Runs(s, steps, 1) && id in Run(s, steps, 1).running;
    }
  }

  /** The smallest run that signals too early: a task that has not registered when the wait passes
      runs after the signal. */
  lemma {:induction false} EarlySignalRun(id: nat)
    ensures var steps := [Spawn(id), Cancel, PassWait, Signal, Register(id)];
            && Runs(START, steps, 5)
            && Run(START, steps, 5).signalled && Run(START, steps, 5).running == {id}
  {
    var steps := [Spawn(id), Cancel, PassWait, Signal, Register(id)];
    assert Runs(START, steps, 0) && Runs(START, steps, 1) && Runs(START, steps, 2);
    assert Run(START, steps, 2) == START.(spawned := {id}, cancelled := true);
    assert Runs(START, steps, 3) && Runs(START, steps, 4) && Runs(START, steps, 5);
  }

  // ---------------------------------------------------------------- the object

  /** A shutdown whose wait passed at step `k` with every task registered, and with nothing spawned
      from outside since. */
  ghost predicate CleanShutdown(log: seq<Step>, k: nat) {
    && k < |log| && log[k] == PassWait
    && Runs(START, log, k) && Run(START, log, k).spawned == {}
    && NoneFromOutside(log, k, |log|)
  }

  /** A clean shutdown leaves every task ever created finished. */
  lemma {:induction false} CleanShutdownIsSafe(log: seq<Step>)
    requires Runs(START, log, |log|)
    ensures forall k: nat | CleanShutdown(log, k) ::
              var s := Run(START, log, |log|);
              s.running == {} && s.spawned == {} && s.finished == Created(log, |log|)
  {
    forall k: nat | CleanShutdown(log, k)
      ensures var s := Run(START, log, |log|);
              s.running == {} && s.spawned == {} && s.finished == Created(log, |log|)
    {
      ShutdownIsSafe(log, k, |log|);
    }
  }

  lemma {:induction false} RunSnoc(s: State, log: seq<Step>, step: Step, n: nat)
    requires n <= |log|
    ensures Runs(s, log + [step], n) <==> Runs(s, log, n)
    ensures Runs(s, log, n) ==> Run(s, log + [step], n) == Run(s, log, n)
  {
    if n > 0 {
      RunSnoc(s, log, step, n - 1);
    }
  }

  lemma {:induction false} LogStep(log: seq<Step>, s: State, step: Step)
    requires Runs(START, log, |log|) && Run(START, log, |log|) == s && Enabled(s, step)
    ensures Runs(START, log + [step], |log + [step]|)
    ensures Run(START, log + [step], |log + [step]|) == Next(s, step)
  {
    RunSnoc(START, log, step, |log|);
  }

  /** The task group. Which goroutine exists, runs or has ended is known to the Go runtime only, so
      those sets and the log of all steps are ghost; the counter, the context and the signal are not. */
  class Group {
    var wg: int
    var cancelled: bool
    var doneSignals: nat
    ghost var spawned: set<nat>
    ghost var running: set<nat>
    ghost var finished: set<nat>
    ghost var waited: bool
    ghost var log: seq<Step>

    ghost function Value(): State
      reads this
    {
      State(spawned, running, finished, wg, cancelled, waited, doneSignals > 0)
    }

    /** The object is where the run of its log leads. */
    ghost predicate FollowsLog()
      reads this
    {
      Runs(START, log, |log|) && Run(START, log, |log|) == Value()
    }

    constructor ()
      ensures FollowsLog() && log == [] && doneSignals == 0
    {
      wg, cancelled, doneSignals := 0, false, 0;
      spawned, running, finished, waited, log := {}, {}, {}, false, [];
    }

    /** `Go`, seen by the caller: a goroutine exists, but nothing is counted yet. */
    method Go(ghost id: nat)
      requires FollowsLog() && Unused(Value(), id)
      modifies this`spawned, this`log
      ensures FollowsLog() && log == old(log) + [Spawn(id)]
      ensures wg == |running| && id in spawned
    {
      CounterCountsRunning(START, log, |log|);
      LogStep(log, Value(), Spawn(id));
      spawned := spawned + {id};
      log := log + [Spawn(id)];
    }

    /** `Go`, called by a running task. */
    method GoFrom(ghost parent: nat, ghost id: nat)
      requires FollowsLog() && parent in running && Unused(Value(), id)
      modifies this`spawned, this`log
      ensures FollowsLog() && log == old(log) + [SpawnFrom(parent, id)]
      ensures wg == |running| && id in spawned
    {
      CounterCountsRunning(START, log, |log|);
      LogStep(log, Value(), SpawnFrom(parent, id));
      spawned := spawned + {id};
      log := log + [SpawnFrom(parent, id)];
    }

    /** The goroutine's first statement, `wg.Add(1)`. */
    method Started(ghost id: nat)
      requires FollowsLog() && id in spawned
      modifies this`wg, this`spawned, this`running, this`log
      ensures FollowsLog() && log == old(log) + [Register(id)]
      ensures wg == |running| && id in running
    {
      LogStep(log, Value(), Register(id));
      wg := wg + 1;
      spawned, running := spawned - {id}, running + {id};
      log := log + [Register(id)];
      CounterCountsRunning(START, log, |log|);
    }

    /** The goroutine's last statement, `wg.Done()`. */
    method Ended(ghost id: nat)
      requires FollowsLog() && id in running
      modifies this`wg, this`running, this`finished, this`log
      ensures FollowsLog() && log == old(log) + [Finish(id)]
      ensures 0 <= wg == |running| && id in finished
    {
      LogStep(log, Value(), Finish(id));
      wg := wg - 1;
      running, finished := running - {id}, finished + {id};
      log := log + [Finish(id)];
      CounterCountsRunning(START, log, |log|);
    }

    method CancelContext()
      requires FollowsLog() && !cancelled
      modifies this`cancelled, this`log
      ensures FollowsLog() && log == old(log) + [Cancel] && cancelled
    {
      LogStep(log, Value(), Cancel);
      cancelled := true;
      log := log + [Cancel];
    }

    /** `wg.Wait()` returns only once the counter is zero: no registered task is unfinished then. */
    method Wait()
      requires FollowsLog() && cancelled && !waited && wg == 0
      modifies this`waited, this`log
      ensures FollowsLog() && log == old(log) + [PassWait]
      ensures running == {}
    {
      CounterCountsRunning(START, log, |log|);
      LogStep(log, Value(), PassWait);
      waited := true;
      log := log + [PassWait];
    }

    /** The signal on `done`: after a clean shutdown every task ever created has finished. */
    method SignalDone()
      requires FollowsLog() && waited && doneSignals == 0
      modifies this`doneSignals, this`log
      ensures FollowsLog() && log == old(log) + [Signal] && doneSignals == 1
      ensures forall k: nat | CleanShutdown(log, k) ::
                running == {} && spawned == {} && finished == Created(log, |log|)
    {
      LogStep(log, Value(), Signal);
      doneSignals := doneSignals + 1;
      log := log + [Signal];
      CleanShutdownIsSafe(log);
    }
  }
}
