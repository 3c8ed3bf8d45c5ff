/**
 The snapshot worker of the memory probe: one calling thread hands one operation at a time to a
 worker that lives as long as the object.  Each step is one critical section, one notification or
 one action outside the lock; the steps of the two threads interleave freely.
 */
module SnapshotWorker {

  datatype Option<+T> = None | Some(value: T)

  /** An operation counts here by its identity alone; what it returns is decided when it runs. */
  type Operation = string

  datatype Result = Snapshot(contents: string) | Failure(code: int)

  /** A packaged task: an operation and the number of the future that receives its result. */
  datatype Task = Task(future: nat, operation: Operation)

  /** `Checking` is awake and about to evaluate the wait condition; `Blocked` needs a wake-up. */
  datatype Worker = Checking | Blocked | Running(task: Task) | Ended

  /** `Deposited` is inside `capture` before the notification, `Awaiting` inside `result.get()`. */
  datatype Caller = Idle | Deposited(future: nat) | Awaiting(future: nat) | Stopping | Joined

  datatype Execution = Execution(task: Task, result: Result)

  datatype State = State(
    slot: Option<Task>,
    stop: bool,
    worker: Worker,
    caller: Caller,
    futures: map<nat, Result>,
    submitted: seq<Operation>,
    executed: seq<Execution>,
    returned: seq<Result>)

  const INITIAL := State(None, false, Checking, Idle, map[], [], [], [])

  datatype Step =
    | Deposit(operation: Operation)
    | Notify
    | Return
    | RequestStop
    | Join
    | Check
    | Finish(result: Result)
    | SpuriousWakeup

  predicate Enabled(s: State, step: Step) {
    match step
    case Deposit(_) => s.caller.Idle?
    case Notify => s.caller.Deposited?
    case Return => s.caller.Awaiting? && s.caller.future in s.futures
    case RequestStop => s.caller.Idle?
    case Join => s.caller.Stopping? && s.worker.Ended?
    case Check => s.worker.Checking?
    case Finish(_) => s.worker.Running?
    case SpuriousWakeup => s.worker.Blocked?
  }

  function Woken(worker: Worker): Worker {
    if worker.Blocked? then Checking else worker
  }

  function Next(s: State, step: Step): State
    requires Enabled(s, step)
  {
    match step
    case Deposit(operation) =>
      // Whatever is in the slot is replaced.
      var future := |s.submitted|;
      s.(slot := Some(Task(future, operation)), caller := Deposited(future), submitted := s.submitted + [operation])
    case Notify => s.(caller := Awaiting(s.caller.future), worker := Woken(s.worker))
    case Return => s.(caller := Idle, returned := s.returned + [s.futures[s.caller.future]])
    case RequestStop => s.(caller := Stopping, stop := true, worker := Woken(s.worker))
    case Join => s.(caller := Joined)
    case Check =>
      // The wait returns its condition, so a deposited task is run even when a stop was requested.
      if s.slot.Some? then s.(worker := Running(s.slot.value), slot := None)
      else if s.stop then s.(worker := Ended)
      else s.(worker := Blocked)
    case Finish(result) =>
      var task := s.worker.task;
      s.(worker := Checking, futures := s.futures[task.future := result], executed := s.executed + [Execution(task, result)])
    case SpuriousWakeup => s.(worker := Checking)
  }

  // ----- invariant -----

  /** The operations run so far are the first ones submitted, in order, each once, under its own future. */
  ghost predicate RunInOrder(s: State) {
    && |s.executed| <= |s.submitted|
    && (forall k :: k in s.futures <==> 0 <= k < |s.executed|)
    && forall k :: 0 <= k < |s.executed| ==>
         && s.executed[k].task == Task(k, s.submitted[k])
         && s.futures[k] == s.executed[k].result
  }

  /** The calls of `capture` that have returned got the result of their own operation. */
  predicate OwnResults(s: State) {
    |s.returned| <= |s.executed| && forall k :: 0 <= k < |s.returned| ==> s.returned[k] == s.executed[k].result
  }

  /** The task that was submitted last and not run yet. */
  predicate Outstanding(s: State, task: Task) {
    |s.submitted| == |s.executed| + 1 && task == Task(|s.executed|, s.submitted[|s.executed|])
  }

  ghost predicate Good(s: State) {
    && RunInOrder(s) && OwnResults(s)
    && (s.slot.Some? ==> Outstanding(s, s.slot.value))
    && (s.worker.Running? ==> Outstanding(s, s.worker.task))
    && !(s.slot.Some? && s.worker.Running?)
    && (s.slot.None? && !s.worker.Running? ==> |s.submitted| == |s.executed|)
    && (s.stop <==> s.caller.Stopping? || s.caller.Joined?)
    && |s.submitted| == |s.returned| + (if s.caller.Deposited? || s.caller.Awaiting? then 1 else 0)
    && (s.caller.Deposited? || s.caller.Awaiting? ==> s.caller.future == |s.returned|)
    && (s.slot.Some? && s.worker.Blocked? ==> s.caller.Deposited?)
    && (s.worker.Blocked? ==> !s.stop)
    && (s.worker.Ended? ==> s.stop)
    && (s.caller.Joined? ==> s.worker.Ended?)
  }

  lemma {:induction false} NextKeepsGood(s: State, step: Step)
    requires Good(s) && Enabled(s, step)
    ensures Good(Next(s, step))
  {
  }

  // ----- every interleaving -----

  predicate IsRun(s: State, run: seq<Step>)
    decreases |run|
  {
    run == [] || (Enabled(s, run[0]) && IsRun(Next(s, run[0]), run[1..]))
  }

  function After(s: State, run: seq<Step>): State
    requires IsRun(s, run)
    decreases |run|
  {
    if run == [] then s else After(Next(s, run[0]), run[1..])
  }

  lemma {:induction false} RunsAreGood(s: State, run: seq<Step>)
    requires Good(s) && IsRun(s, run)
    ensures Good(After(s, run))
    decreases |run|
  {
    if run != [] {
      hide Good, Enabled, Next;
      NextKeepsGood(s, run[0]);
      RunsAreGood(Next(s, run[0]), run[1..]);
    }
  }

  /** In every interleaving the k-th `capture` returns what the k-th operation gave when it ran, once, as the k-th. */
  lemma {:induction false} EachCaptureGetsItsOwnResult(run: seq<Step>, k: nat)
    requires IsRun(INITIAL, run) && k < |After(INITIAL, run).returned|
    ensures var s := After(INITIAL, run);
      && k < |s.executed| && k < |s.submitted|
      && s.executed[k] == Execution(Task(k, s.submitted[k]), s.returned[k])
      && forall j :: 0 <= j < |s.executed| && j != k ==> s.executed[j].task.future != k
  {
    RunsAreGood(INITIAL, run);
  }

  /** When the destructor's join has returned, every operation has run and every call has its result. */
  lemma {:induction false} NothingIsLeftUnrun(run: seq<Step>)
    requires IsRun(INITIAL, run) && After(INITIAL, run).worker.Ended?
    ensures var s := After(INITIAL, run);
      s.stop && s.slot.None? && |s.submitted| == |s.executed| == |s.returned|
  {
    RunsAreGood(INITIAL, run);
  }

  /** No task is ever overwritten in the slot, so no future is ever abandoned. */
  lemma {:induction false} SlotIsEmptyAtDeposit(run: seq<Step>)
    requires IsRun(INITIAL, run) && After(INITIAL, run).caller.Idle?
    ensures After(INITIAL, run).slot.None?
  {
    RunsAreGood(INITIAL, run);
  }

  // ----- every call returns -----

  /** The steps that begin a call: the others complete one. */
  predicate Begins(step: Step) {
    step.Deposit? || step.RequestStop?
  }

  /** Steps, spurious wake-ups apart, that the call in progress can still take. */
  function StepsLeft(s: State): nat {
    (match s.caller
     case Deposited(_) => 4
     case Awaiting(_) => 2
     case Stopping => 1
     case _ => 0)
    + (match s.worker
       case Running(_) => 2
       case Checking => if s.slot.Some? then 3 else 1
       case Blocked => if s.slot.Some? then 3 else 0
       case Ended => 0)
  }

  /** No wake-up is lost: a call in progress always has a step that is not a spurious wake-up. */
  lemma {:induction false} NeverStuck(s: State) returns (step: Step)
    requires Good(s) && !s.caller.Idle? && !s.caller.Joined?
    ensures Enabled(s, step) && !Begins(step) && !step.SpuriousWakeup?
  {
    if s.caller.Deposited? {
      step := Notify;
    } else if s.caller.Awaiting? && s.caller.future in s.futures {
      step := Return;
    } else if s.worker.Checking? {
      step := Check;
    } else if s.worker.Ended? {
      step := Join;
    } else {
      step := Finish(Failure(0));
    }
  }

  function SpuriousWakeups(run: seq<Step>): nat
    decreases |run|
  {
    if run == [] then 0 else (if run[0].SpuriousWakeup? then 1 else 0) + SpuriousWakeups(run[1..])
  }

  lemma {:induction false} StepsDecrease(s: State, step: Step)
    requires Good(s) && Enabled(s, step) && !Begins(step)
    ensures StepsLeft(Next(s, step)) + 1 <= StepsLeft(s) + (if step.SpuriousWakeup? then 2 else 0)
  {
  }

  /** From any reachable state a call returns after at most seven steps of either thread, beyond two for each spurious wake-up. */
  lemma {:induction false} CallsReturn(s: State, run: seq<Step>)
    requires Good(s) && IsRun(s, run) && forall step <- run :: !Begins(step)
    ensures |run| + StepsLeft(After(s, run)) <= StepsLeft(s) + 2 * SpuriousWakeups(run)
    ensures StepsLeft(s) <= 7
    decreases |run|
  {
    if run != [] {
      assert run[0] in run;
      StepsDecrease(s, run[0]);
      NextKeepsGood(s, run[0]);
      hide Good, Enabled, Next, StepsLeft;
      CallsReturn(Next(s, run[0]), run[1..]);
    }
  }
}
