/**
 The diagnostics mailbox: the GUI thread leaves its latest snapshot in a single slot, a writer
 thread takes it out and writes it to a file.  Each step below is one critical section or one
 action outside the lock; steps of the two threads interleave freely.
 */
module DiagnosticsMailbox {

  /** Where the writer thread is.  `Holding` is between releasing the lock and the end of the write. */
  datatype Writer = Opening | Waiting | Holding(bytes: string, done: bool) | Ended(hadFile: bool)

  /** Where the GUI thread is; `finish` flushes, requests the stop and joins. */
  datatype Gui = Running | FinalFlushed | StopRequested | Joined

  /** An empty slot is the empty string; a snapshot never is. */
  datatype State = State(
    pending: string,
    droppedSnapshots: nat,
    stop: bool,
    writer: Writer,
    gui: Gui,
    writeFailed: bool,
    flushed: seq<string>,
    taken: seq<string>,
    written: seq<string>)

  const INITIAL := State("", 0, false, Opening, Running, false, [], [], [])

  datatype Step =
    | OpenFile(ok: bool)
    | Flush(bytes: string)
    | FinalFlush(bytes: string)
    | RequestStop
    | Take
    | Write(ok: bool)
    | Join

  predicate Enabled(s: State, step: Step) {
    match step
    case OpenFile(_) => s.writer.Opening?
    case Flush(bytes) => s.gui.Running? && bytes != ""
    case FinalFlush(bytes) => s.gui.Running? && bytes != ""
    case RequestStop => s.gui.FinalFlushed?
    case Take => s.writer.Waiting? && (s.pending != "" || s.stop)
    case Write(_) => s.writer.Holding?
    case Join => s.gui.StopRequested? && s.writer.Ended?
  }

  function Deposit(s: State, bytes: string): State {
    s.(droppedSnapshots := s.droppedSnapshots + if s.pending != "" then 1 else 0,
       pending := bytes,
       flushed := s.flushed + [bytes])
  }

  function Next(s: State, step: Step): State
    requires Enabled(s, step)
  {
    match step
    case OpenFile(ok) => if ok then s.(writer := Waiting) else s.(writer := Ended(false), writeFailed := true)
    case Flush(bytes) => Deposit(s, bytes)
    case FinalFlush(bytes) => Deposit(s, bytes).(gui := FinalFlushed)
    case RequestStop => s.(gui := StopRequested, stop := true)
    case Take =>
      // The stop flag is sampled in the critical section that empties the slot.
      s.(writer := Holding(s.pending, s.stop), pending := "",
         taken := s.taken + if s.pending != "" then [s.pending] else [])
    case Write(ok) =>
      s.(writer := if s.writer.done then Ended(true) else Waiting,
         writeFailed := s.writeFailed || (s.writer.bytes != "" && !ok),
         written := s.written + if s.writer.bytes != "" && ok then [s.writer.bytes] else [])
    case Join => s.(gui := Joined)
  }

  // ----- subsequences -----

  /** `a` occurs in `b`, in order, possibly with gaps. */
  predicate Subsequence(a: seq<string>, b: seq<string>)
    decreases |b|
  {
    a == [] || (b != [] &&
      ((a[|a| - 1] == b[|b| - 1] && Subsequence(a[..|a| - 1], b[..|b| - 1])) || Subsequence(a, b[..|b| - 1])))
  }

  lemma {:induction false} SubsequenceSkip(a: seq<string>, b: seq<string>, x: string)
    requires Subsequence(a, b)
    ensures Subsequence(a, b + [x])
  {
    assert (b + [x])[..|b|] == b;
  }

  lemma {:induction false} SubsequenceTake(a: seq<string>, b: seq<string>, x: string)
    requires Subsequence(a, b)
    ensures Subsequence(a + [x], b + [x])
  {
    assert (a + [x])[..|a|] == a && (b + [x])[..|b|] == b;
  }

  // ----- invariant -----

  function One(condition: bool): nat {
    if condition then 1 else 0
  }

  /** Every snapshot was taken, was overwritten in the slot, or is in the slot. */
  predicate Counted(s: State) {
    |s.flushed| == |s.taken| + s.droppedSnapshots + One(s.pending != "")
  }

  /** Snapshots are taken in the order of the flushes, and the slot holds the latest. */
  predicate InOrder(s: State) {
    if s.pending == "" then Subsequence(s.taken, s.flushed)
    else
      && s.flushed != [] && s.flushed[|s.flushed| - 1] == s.pending
      && Subsequence(s.taken, s.flushed[..|s.flushed| - 1])
  }

  /** The last flush has been taken. */
  predicate LastTaken(s: State) {
    s.taken != [] && s.flushed != [] && s.taken[|s.taken| - 1] == s.flushed[|s.flushed| - 1]
  }

  predicate Leaving(writer: Writer) {
    writer == Ended(true) || (writer.Holding? && writer.done)
  }

  predicate Good(s: State) {
    && Counted(s) && InOrder(s)
    && (s.stop <==> s.gui.StopRequested? || s.gui.Joined?)
    && (!s.gui.Running? ==> s.pending != "" || LastTaken(s))
    && (Leaving(s.writer) ==> s.stop && s.pending == "" && LastTaken(s))
    && (s.gui.Joined? ==> s.writer.Ended?)
    && ((s.writer.Opening? || s.writer == Ended(false)) ==> s.taken == [] && s.written == [])
    && (!s.writeFailed ==> s.taken == s.written + if s.writer.Holding? && s.writer.bytes != "" then [s.writer.bytes] else [])
    && (s.writer == Ended(false) ==> s.writeFailed)
  }

  lemma {:induction false} DepositKeeps(s: State, bytes: string)
    requires Counted(s) && InOrder(s) && bytes != ""
    ensures Counted(Deposit(s, bytes)) && InOrder(Deposit(s, bytes))
  {
    assert Deposit(s, bytes).flushed[..|s.flushed|] == s.flushed;
    if s.pending != "" {
      SubsequenceSkip(s.taken, s.flushed[..|s.flushed| - 1], s.pending);
      assert s.flushed[..|s.flushed| - 1] + [s.pending] == s.flushed;
    }
  }

  lemma {:induction false} TakeKeeps(s: State)
    requires Counted(s) && InOrder(s) && Enabled(s, Take)
    ensures Counted(Next(s, Take)) && InOrder(Next(s, Take))
    ensures s.pending != "" ==> LastTaken(Next(s, Take))
  {
    if s.pending != "" {
      SubsequenceTake(s.taken, s.flushed[..|s.flushed| - 1], s.pending);
      assert s.flushed[..|s.flushed| - 1] + [s.pending] == s.flushed;
    } else {
      assert Next(s, Take).taken == s.taken;
    }
  }

  lemma {:induction false} NextKeepsCounts(s: State, step: Step)
    requires Good(s) && Enabled(s, step)
    ensures Counted(Next(s, step)) && InOrder(Next(s, step))
    ensures step.Take? && s.pending != "" ==> LastTaken(Next(s, step))
  {
    hide Subsequence;
    match step {
      case Flush(bytes) => DepositKeeps(s, bytes);
      case FinalFlush(bytes) => DepositKeeps(s, bytes);
      case Take => TakeKeeps(s);
      case _ =>
    }
  }

  lemma {:induction false} NextKeepsGood(s: State, step: Step)
    requires Good(s) && Enabled(s, step)
    ensures Good(Next(s, step))
  {
    hide Counted, InOrder, Subsequence;
    NextKeepsCounts(s, step);
  }

  // ----- every interleaving -----

  predicate IsRun(s: State, run: seq<Step>)
    decreases |run|
  {
    run == [] || (Enabled(s, run[0]) && IsRun(Next(s, run[0]), run[1..]))
  }

  function After(s: State, run: seq<Step>): State
    requires IsRun(s, run)
    decreases |run|
  {
    if run == [] then s else After(Next(s, run[0]), run[1..])
  }

  lemma {:induction false} RunsAreGood(s: State, run: seq<Step>)
    requires Good(s) && IsRun(s, run)
    ensures Good(After(s, run))
    decreases |run|
  {
    if run != [] {
      hide Good, Enabled, Next;
      NextKeepsGood(s, run[0]);
      RunsAreGood(Next(s, run[0]), run[1..]);
    }
  }

  /** In every interleaving: flushed = taken + dropped + slot, and the taken ones are an in-order selection. */
  lemma {:induction false} EverySnapshotIsAccountedFor(run: seq<Step>)
    requires IsRun(INITIAL, run)
    ensures var s := After(INITIAL, run);
      && |s.flushed| == |s.taken| + s.droppedSnapshots + One(s.pending != "")
      && Subsequence(s.taken, s.flushed)
  {
    RunsAreGood(INITIAL, run);
    var s := After(INITIAL, run);
    if s.pending != "" {
      SubsequenceSkip(s.taken, s.flushed[..|s.flushed| - 1], s.pending);
      assert s.flushed[..|s.flushed| - 1] + [s.pending] == s.flushed;
    }
  }

  /**
   If the file could be opened, the thread ends only after it has taken the snapshot that `finish`
   flushed last, leaving nothing in the slot; without write errors the file then holds exactly
   the taken snapshots.
   */
  lemma {:induction false} FinalSnapshotIsTaken(run: seq<Step>)
    requires IsRun(INITIAL, run) && After(INITIAL, run).writer == Ended(true)
    ensures var s := After(INITIAL, run);
      && s.stop && s.pending == ""
      && s.taken != [] && s.flushed != [] && s.taken[|s.taken| - 1] == s.flushed[|s.flushed| - 1]
      && |s.flushed| == |s.taken| + s.droppedSnapshots
      && (!s.writeFailed ==> s.written == s.taken)
  {
    RunsAreGood(INITIAL, run);
  }

  /** If the file could not be opened, nothing is ever taken, and the counters still add up. */
  lemma {:induction false} NothingTakenWithoutFile(run: seq<Step>)
    requires IsRun(INITIAL, run) && After(INITIAL, run).writer == Ended(false)
    ensures var s := After(INITIAL, run);
      s.taken == [] && s.written == [] && s.writeFailed && |s.flushed| == s.droppedSnapshots + One(s.pending != "")
  {
    RunsAreGood(INITIAL, run);
  }

  /** A snapshot counts as written only if its write succeeded. */
  lemma {:induction false} OnlySuccessfulWritesCount(s: State, run: seq<Step>)
    requires IsRun(s, run) && forall k :: 0 <= k < |run| ==> run[k] != Write(true)
    ensures After(s, run).written == s.written
    decreases |run|
  {
    if run != [] {
      OnlySuccessfulWritesCount(Next(s, run[0]), run[1..]);
    }
  }

  // ----- the thread ends -----

  predicate IsWriterStep(step: Step) {
    step.OpenFile? || step.Take? || step.Write?
  }

  /** Writer steps still possible once the stop is requested. */
  function StepsLeft(writer: Writer): nat {
    match writer
    case Opening => 3
    case Holding(_, done) => if done then 1 else 3
    case Waiting => 2
    case Ended(_) => 0
  }

  /** After the stop request the writer is never blocked, and each of its steps brings it closer to its end. */
  lemma {:induction false} WriterEndsAfterStop(s: State, step: Step)
    requires Good(s) && s.stop
    ensures s.writer.Ended? || Enabled(s, OpenFile(true)) || Enabled(s, Take) || Enabled(s, Write(true))
    ensures Enabled(s, step) ==>
      && Next(s, step).stop
      && StepsLeft(Next(s, step).writer) <= StepsLeft(s.writer)
      && (IsWriterStep(step) ==> StepsLeft(Next(s, step).writer) < StepsLeft(s.writer))
  {
  }

  function WriterSteps(run: seq<Step>): nat
    decreases |run|
  {
    if run == [] then 0 else One(IsWriterStep(run[0])) + WriterSteps(run[1..])
  }

  /** So at most three writer steps follow a stop request in any run, and after the third one `join` returns. */
  lemma {:induction false} FewWriterStepsAfterStop(s: State, run: seq<Step>)
    requires Good(s) && s.stop && IsRun(s, run)
    ensures WriterSteps(run) + StepsLeft(After(s, run).writer) <= StepsLeft(s.writer) <= 3
    ensures WriterSteps(run) == StepsLeft(s.writer) ==> After(s, run).writer.Ended?
    decreases |run|
  {
    if run != [] {
      WriterEndsAfterStop(s, run[0]);
      NextKeepsGood(s, run[0]);
      hide Good, Enabled, Next, IsWriterStep;
      FewWriterStepsAfterStop(Next(s, run[0]), run[1..]);
    }
  }
}
