/**
 The sleep protocol of kernel-src/io/poll.c for one poll descriptor, in every interleaving of the
 polling thread with any number of event sources, the timer and interruption. Every source has a
 header with a lock of its own, which poll_event holds from beginning to end and poll_add and
 poll_leave take for each entry. What happens under the descriptor's eventlock is one step.
 */
module PollRuns {

  /** Why a sleeping thread was woken. */
  datatype Reason = ByEvent | ByTimeout | ByInterrupt

  /** The polling thread: outside of poll_dowait, asleep in it, woken and not yet back, holding the
      wakeuplock after an interruption, back from it with EINTR, or back from poll_leave. */
  datatype Poller = Running | Asleep | Woken(reason: Reason) | Leaving | Failed | Gone(failed: bool)

  /** An event source: between calls, with its header unlocked; in a call, with some entries of the
      descriptor left to visit; the same and bound to wake the thread; done with that and still holding
      the wakeuplock. */
  datatype Source = Idle | Scanning(left: nat) | Committed(left: nat) | Done

  predicate Active(x: Source) {
    x.Committed? || x.Done?
  }

  /** lock and wakeuplock of the descriptor, whether its event is recorded, whether the timer is
      set, the polling thread, the sources, and how many entries the descriptor has with each.
      Winner is the active source, or -1, and wins counts the successful attempts on the lock since
      the thread last went to sleep. */
  datatype State = State(lock: bool, wakeuplock: bool, event: bool, timer: bool, poller: Poller, sources: seq<Source>,
                         entry: seq<nat>, winner: int, wins: nat)

  // ----- Steps

  /** poll_add, and poll_leave for one entry: the header has to be unlocked. */
  ghost predicate Add(s: State, s': State, j: nat) {
    && s.poller.Running? && j < |s.sources| == |s.entry| && s.sources[j].Idle?
    && s' == s.(entry := s.entry[j := s.entry[j] + 1])
  }

  ghost predicate Leave(s: State, s': State, j: nat) {
    && (s.poller.Running? || s.poller.Failed?) && j < |s.sources| == |s.entry| && s.sources[j].Idle?
    && 0 < s.entry[j] && s' == s.(entry := s.entry[j := s.entry[j] - 1])
  }

  /** poll_leave returns. */
  ghost predicate LeaveDone(s: State, s': State) {
    && (s.poller.Running? || s.poller.Failed?) && (forall j :: 0 <= j < |s.entry| ==> s.entry[j] == 0)
    && s' == s.(poller := Gone(s.poller.Failed?))
  }

  /** poll_dowait: it returns at once if the event is recorded, and otherwise goes to sleep. */
  ghost predicate Wait(s: State, s': State, timed: bool) {
    && s.poller.Running?
    && s' == if s.event then s else s.(poller := Asleep, lock := false, timer := timed, wins := 0)
  }

  /** poll_event takes the lock of its header. */
  ghost predicate Begin(s: State, s': State, j: nat) {
    && j < |s.sources| == |s.entry| && s.sources[j].Idle?
    && s' == s.(sources := s.sources[j := Scanning(s.entry[j])])
  }

  /** The first pass of poll_event, for one entry of the descriptor. It may be one of several, and an
      earlier one may have made this source the winner. */
  ghost predicate Record(s: State, s': State, j: nat, matches: bool) {
    && j < |s.sources| && (s.sources[j].Scanning? || s.sources[j].Committed?) && 0 < s.sources[j].left
    && var left := s.sources[j].left - 1;
       var past := s.(sources := s.sources[j := s.sources[j].(left := left)]);
       s' == if !matches then past
             else if s.lock then past.(event := true)
             else if s.wakeuplock then past.(event := true, lock := true, wins := s.wins + 1)
             else s.(event := true, lock := true, wakeuplock := true, sources := s.sources[j := Committed(left)],
                     winner := j, wins := s.wins + 1)
  }

  /** The second pass: sched_wakeup, then the release of the wakeuplock. */
  ghost predicate WakeUp(s: State, s': State, j: nat) {
    && j < |s.sources| && s.sources[j] == Committed(0)
    && s' == s.(sources := s.sources[j := Done], poller := if s.poller.Asleep? then Woken(ByEvent) else s.poller)
  }

  ghost predicate Finish(s: State, s': State, j: nat) {
    && j < |s.sources| && s.sources[j].Done?
    && s' == s.(sources := s.sources[j := Scanning(0)], wakeuplock := false, winner := -1)
  }

  /** poll_event returns. */
  ghost predicate End(s: State, s': State, j: nat) {
    j < |s.sources| && s.sources[j] == Scanning(0) && s' == s.(sources := s.sources[j := Idle])
  }

  /** The timer's callback. */
  ghost predicate Timeout(s: State, s': State) {
    && s.timer
    && s' == if s.lock then s.(timer := false)
             else s.(timer := false, lock := true, wins := s.wins + 1,
                     poller := if s.poller.Asleep? then Woken(ByTimeout) else s.poller)
  }

  ghost predicate Interrupt(s: State, s': State) {
    s.poller.Asleep? && s' == s.(poller := Woken(ByInterrupt))
  }

  /** The rest of poll_dowait. */
  ghost predicate Return(s: State, s': State) {
    && s.poller.Woken? && !s.poller.reason.ByInterrupt?
    && s' == s.(poller := Running, timer := if s.poller.reason.ByTimeout? then s.timer else false)
  }

  ghost predicate TakeWakeup(s: State, s': State) {
    s.poller == Woken(ByInterrupt) && !s.wakeuplock && s' == s.(poller := Leaving, wakeuplock := true)
  }

  ghost predicate Fail(s: State, s': State) {
    s.poller.Leaving? && s' == s.(poller := Failed, timer := false)
  }

  datatype Step = AddStep(j: nat) | LeaveStep(j: nat) | GoneStep | WaitStep(timed: bool) | BeginStep(j: nat)
    | RecordStep(j: nat, matches: bool) | WakeStep(j: nat) | FinishStep(j: nat) | EndStep(j: nat)
    | TimeoutStep | InterruptStep | ReturnStep | TakeStep | FailStep

  ghost predicate Next(s: State, s': State, step: Step) {
    match step
    case AddStep(j) => Add(s, s', j)
    case LeaveStep(j) => Leave(s, s', j)
    case GoneStep => LeaveDone(s, s')
    case WaitStep(timed) => Wait(s, s', timed)
    case BeginStep(j) => Begin(s, s', j)
    case RecordStep(j, matches) => Record(s, s', j, matches)
    case WakeStep(j) => WakeUp(s, s', j)
    case FinishStep(j) => Finish(s, s', j)
    case EndStep(j) => End(s, s', j)
    case TimeoutStep => Timeout(s, s')
    case InterruptStep => Interrupt(s, s')
    case ReturnStep => Return(s, s')
    case TakeStep => TakeWakeup(s, s')
    case FailStep => Fail(s, s')
  }

  /** After poll_initdesc, which takes the lock. Sources may be at work for other descriptors. */
  ghost predicate Init(s: State) {
    && s.lock && !s.wakeuplock && !s.event && !s.timer && s.poller.Running? && s.winner == -1 && s.wins == 0
    && |s.entry| == |s.sources|
    && forall j :: 0 <= j < |s.sources| ==> s.entry[j] == 0 && (s.sources[j].Idle? || s.sources[j] == Scanning(0))
  }

  // ----- The invariant

  ghost predicate SourcesOk(s: State) {
    && |s.entry| == |s.sources| && -1 <= s.winner < |s.sources|
    && forall j :: 0 <= j < |s.sources| ==> SourceOk(s, j)
  }

  /** The entries that a source has left to visit. */
  function Left(x: Source): (n: nat) {
    if x.Scanning? || x.Committed? then x.left else 0
  }

  /** Only the winner is active, and only while the descriptor has an entry with it; no source has more
      entries left to visit than there are. */
  ghost predicate SourceOk(s: State, j: nat)
    requires j < |s.sources| == |s.entry|
  {
    && (Active(s.sources[j]) <==> j == s.winner) && (Active(s.sources[j]) ==> 0 < s.entry[j])
    && Left(s.sources[j]) <= s.entry[j]
  }

  /** A source is bound to wake the thread and has not done so. */
  ghost predicate Bound(s: State) {
    0 <= s.winner < |s.sources| && s.sources[s.winner].Committed?
  }

  ghost predicate Failing(p: Poller) {
    p.Leaving? || p.Failed? || p == Gone(true)
  }

  ghost predicate LocksOk(s: State) {
    && (s.wakeuplock <==> s.winner != -1 || Failing(s.poller))
    && (Failing(s.poller) || s.poller.Gone? ==> s.winner == -1)
    && (s.winner != -1 ==> s.lock && s.event)
    && (s.poller.Asleep? && s.lock ==> Bound(s))
    && (s.poller.Asleep? && s.event ==> s.lock)
    && (Bound(s) ==> s.poller.Asleep? || (s.poller.Woken? && s.poller.reason.ByInterrupt?))
    && (s.poller.Running? || (s.poller.Woken? && !s.poller.reason.ByInterrupt?) ==> s.lock)
    && (s.poller == Woken(ByEvent) ==> s.event)
    && (s.timer ==> !s.poller.Running? && !s.poller.Failed? && !s.poller.Gone? && s.poller != Woken(ByTimeout))
    && s.wins <= 1 && (s.wins == 1 ==> s.lock)
  }

  ghost predicate Inv(s: State) {
    && SourcesOk(s) && LocksOk(s)
    && (s.poller.Gone? ==> forall j :: 0 <= j < |s.entry| ==> s.entry[j] == 0)
  }

  /** The source that a step is about, or the winner. */
  ghost function About(s: State, step: Step): (j: int) {
    match step
    case WakeStep(j) => j
    case FinishStep(j) => j
    case RecordStep(j, _) => j
    case _ => s.winner
  }

  lemma SourcesKept(s: State, s': State, step: Step)
    requires SourcesOk(s) && Next(s, s', step) && (s.winner != -1 ==> s.wakeuplock)
    ensures SourcesOk(s')
  {
    var about := About(s, step);
    assert 0 <= about < |s.sources| ==> SourceOk(s, about);
    forall j | 0 <= j < |s'.sources|
      ensures SourceOk(s', j)
    {
      assert SourceOk(s, j);
    }
  }

  lemma LocksKept(s: State, s': State, step: Step)
    requires Inv(s) && Next(s, s', step)
    ensures LocksOk(s')
  {
    var about := About(s, step);
    assert 0 <= about < |s.sources| ==> SourceOk(s, about);
  }

  lemma NextKeeps(s: State, s': State, step: Step)
    requires Inv(s) && Next(s, s', step)
    ensures Inv(s')
  {
    hide SourcesOk, LocksOk;
    assert s.winner != -1 ==> s.wakeuplock by { WinnerLocks(s); }
    SourcesKept(s, s', step);
    LocksKept(s, s', step);
  }

  lemma WinnerLocks(s: State)
    requires LocksOk(s)
    ensures s.winner != -1 ==> s.wakeuplock
  {}

  ghost predicate IsRun(run: seq<State>, steps: seq<Step>) {
    && |run| == |steps| + 1 && Init(run[0])
    && forall k :: 0 <= k < |steps| ==> Next(run[k], run[k + 1], steps[k])
  }

  lemma {:induction false} RunInv(run: seq<State>, steps: seq<Step>, k: nat)
    requires IsRun(run, steps) && k < |run|
    ensures Inv(run[k])
  {
    hide Next;
    if k > 0 {
      RunInv(run, steps, k - 1);
      NextKeeps(run[k - 1], run[k], steps[k - 1]);
    }
  }

  /** No event is lost: a thread asleep whose event is recorded has a source bound to wake it. */
  lemma NoLostEvent(run: seq<State>, steps: seq<Step>, k: nat)
    requires IsRun(run, steps) && k < |run| && run[k].poller.Asleep? && run[k].event
    ensures exists j :: 0 <= j < |run[k].sources| && run[k].sources[j].Committed?
  {
    RunInv(run, steps, k);
  }

  /** At most one source or timeout wins each sleep. */
  lemma OneWinner(run: seq<State>, steps: seq<Step>, k: nat, i: nat, j: nat)
    requires IsRun(run, steps) && k < |run| && i < |run[k].sources| && j < |run[k].sources|
    requires Active(run[k].sources[i]) && Active(run[k].sources[j])
    ensures i == j && run[k].wins <= 1
  {
    RunInv(run, steps, k);
    assert SourceOk(run[k], i) && SourceOk(run[k], j);
  }

  /** The assertion of poll_dowait: a thread woken by an event finds the lock held. */
  lemma LockLeftHeld(run: seq<State>, steps: seq<Step>, k: nat)
    requires IsRun(run, steps) && k < |run| && run[k].poller == Woken(ByEvent)
    ensures run[k].lock && run[k].event
  {
    RunInv(run, steps, k);
  }

  /** A wake-up never reaches a thread that is outside of poll_dowait. */
  lemma NoStrayWakeup(run: seq<State>, steps: seq<Step>, k: nat, j: nat)
    requires IsRun(run, steps) && k < |run| && j < |run[k].sources| && run[k].sources[j].Committed?
    ensures run[k].poller.Asleep? || run[k].poller == Woken(ByInterrupt)
    ensures run[k].timer ==> !run[k].poller.Running? && !run[k].poller.Failed?
  {
    RunInv(run, steps, k);
    assert SourceOk(run[k], j);
  }

  /** What the descriptor itself holds. */
  ghost predicate SameDescriptor(s: State, s': State) {
    s'.lock == s.lock && s'.wakeuplock == s.wakeuplock && s'.event == s.event && s'.poller == s.poller
  }

  lemma NoneActive(s: State)
    requires Inv(s) && s.poller.Gone?
    ensures forall j :: 0 <= j < |s.sources| ==> !Active(s.sources[j]) && Left(s.sources[j]) == 0
  {
    forall j | 0 <= j < |s.sources|
      ensures !Active(s.sources[j]) && Left(s.sources[j]) == 0
    {
      assert SourceOk(s, j);
    }
  }

  /** One step after poll_leave has returned. */
  lemma GoneStays(s: State, s': State, step: Step)
    requires Inv(s) && s.poller.Gone? && Next(s, s', step)
    ensures s'.poller.Gone? && SameDescriptor(s, s')
  {
    NoneActive(s);
  }

  /** Once poll_leave has returned, no source is bound to wake the thread or still holds a lock of the
      descriptor, and no step touches it again: it can be destroyed. */
  lemma {:induction false} NothingAfterLeave(run: seq<State>, steps: seq<Step>, k: nat, m: nat)
    requires IsRun(run, steps) && k <= m < |run| && run[k].poller.Gone?
    ensures run[m].poller.Gone? && SameDescriptor(run[k], run[m]) && !run[m].timer
    ensures forall j :: 0 <= j < |run[m].sources| ==> !Active(run[m].sources[j]) && Left(run[m].sources[j]) == 0
    decreases m
  {
    hide Next;
    RunInv(run, steps, m);
    if k < m {
      NothingAfterLeave(run, steps, k, m - 1);
      RunInv(run, steps, m - 1);
      GoneStays(run[m - 1], run[m], steps[m - 1]);
    }
    NoneActive(run[m]);
  }
}
