/**
 Every interleaving of the operations of a semaphore (kernel-src/lib/semaphore.c) with sleeping,
 waking and interruption. What happens under the semaphore's spinlock is one step, except that a
 signal first takes a thread from the queue and then wakes it, with the lock held in between.
 */
module SemaphoreRuns {
  import opened Links
  import opened Semaphores

  /** A thread outside, asleep in semaphore_wait, woken (by a signal or by an interruption) and not
      yet back, or back with a unit of the semaphore. */
  datatype Thread = Out | Asleep(interruptible: bool) | Woken(interrupted: bool) | Holding

  /** A semaphore with counter i and a queue; waking is the thread that a signal is about to wake,
      or zero. The rest is history: units given back and given out, the threads that have a unit,
      the number of waits that went to sleep, the number of its wait for every thread that did, and
      the numbers of the waits served from the queue. */
  datatype State = State(i: int, queue: seq<nat>, threads: map<nat, Thread>, waking: nat,
                         initial: int, signals: int, grants: int, holders: set<nat>, arrived: nat,
                         ticket: map<nat, nat>, served: seq<nat>)

  function Of(s: State, t: nat): (st: Thread) {
    if t in s.threads then s.threads[t] else Out
  }

  function Put(s: State, t: nat, st: Thread): (s': State) {
    s.(threads := s.threads[t := st])
  }

  /** No one holds the spinlock. */
  predicate Unlocked(s: State) {
    s.waking == 0
  }

  // ----- Steps

  ghost predicate Wait(s: State, s': State, t: nat, interruptible: bool) {
    && Unlocked(s) && t != 0 && Of(s, t).Out? && t !in s.holders
    && s' == if 0 <= s.i - 1
             then Put(s, t, Holding).(i := s.i - 1, grants := s.grants + 1, holders := s.holders + {t})
             else Put(s, t, Asleep(interruptible)).(i := s.i - 1, queue := [t] + s.queue, arrived := s.arrived + 1,
                                                    ticket := s.ticket[t := s.arrived])
  }

  ghost predicate Test(s: State, s': State, t: nat) {
    && Unlocked(s) && t != 0 && Of(s, t).Out? && t !in s.holders
    && s' == if 0 < s.i then Put(s, t, Holding).(i := s.i - 1, grants := s.grants + 1, holders := s.holders + {t})
             else s
  }

  /** What a signal does before it wakes anyone. A thread taken from the queue has its unit. */
  function Signalled(s: State): (s': State) {
    if s.i + 1 <= 0 && s.queue != []
    then s.(i := s.i + 1, signals := s.signals + 1, queue := s.queue[..|s.queue| - 1], waking := Last(s.queue),
            grants := s.grants + 1, holders := s.holders + {Last(s.queue)},
            served := s.served + [Get(s.ticket, Last(s.queue))])
    else s.(i := s.i + 1, signals := s.signals + 1)
  }

  /** semaphore_signal by anyone, and semaphore_signal_limit. */
  ghost predicate Signal(s: State, s': State) {
    Unlocked(s) && s' == Signalled(s)
  }

  ghost predicate SignalLimit(s: State, s': State, limit: int) {
    Unlocked(s) && s' == if s.i >= limit then s else Signalled(s)
  }

  /** semaphore_signal by a thread that gives back its unit. */
  ghost predicate Release(s: State, s': State, t: nat) {
    Unlocked(s) && Of(s, t).Holding? && t in s.holders && s' == Signalled(Put(s, t, Out).(holders := s.holders - {t}))
  }

  /** A thread uses up its unit for good. */
  ghost predicate Consume(s: State, s': State, t: nat) {
    Of(s, t).Holding? && s' == Put(s, t, Out).(holders := s.holders - {t})
  }

  /** sched_wakeup by the signal, which then unlocks. A thread that is not asleep is left alone. */
  ghost predicate Wake(s: State, s': State) {
    && s.waking != 0
    && s' == (if Of(s, s.waking).Asleep? then Put(s, s.waking, Woken(false)) else s).(waking := 0)
  }

  ghost predicate Interrupt(s: State, s': State, t: nat) {
    Of(s, t).Asleep? && Of(s, t).interruptible && s' == Put(s, t, Woken(true))
  }

  ghost predicate Resume(s: State, s': State, t: nat) {
    Of(s, t) == Woken(false) && s' == Put(s, t, Holding)
  }

  /** The end of an interrupted wait: it fails if the thread is still in the queue, and has its unit
      otherwise. */
  ghost predicate Retract(s: State, s': State, t: nat) {
    && Unlocked(s) && Of(s, t) == Woken(true)
    && s' == if t in s.queue
             then Put(s, t, Out).(i := s.i + 1, queue := Without(s.queue, t))
             else Put(s, t, Holding)
  }

  datatype Step =
    | WaitStep(t: nat, interruptible: bool) | TestStep(t: nat) | SignalStep | LimitStep(limit: int)
    | ReleaseStep(t: nat) | ConsumeStep(t: nat)
    | WakeStep | InterruptStep(t: nat) | ResumeStep(t: nat) | RetractStep(t: nat)

  ghost predicate Next(s: State, s': State, step: Step) {
    match step
    case WaitStep(t, interruptible) => Wait(s, s', t, interruptible)
    case TestStep(t) => Test(s, s', t)
    case SignalStep => Signal(s, s')
    case LimitStep(limit) => SignalLimit(s, s', limit)
    case ReleaseStep(t) => Release(s, s', t)
    case ConsumeStep(t) => Consume(s, s', t)
    case WakeStep => Wake(s, s')
    case InterruptStep(t) => Interrupt(s, s', t)
    case ResumeStep(t) => Resume(s, s', t)
    case RetractStep(t) => Retract(s, s', t)
  }

  ghost predicate Init(s: State) {
    && 0 <= s.i == s.initial && s.queue == [] && s.threads == map[] && s.waking == 0
    && s.signals == 0 && s.grants == 0 && s.holders == {} && s.arrived == 0 && s.ticket == map[] && s.served == []
  }

  // ----- The invariant

  /** One waiter for every unit below zero, and every unit accounted for. */
  ghost predicate Accounted(s: State) {
    |s.queue| == Waiting(s.i) && s.i == s.initial + s.signals - s.grants - |s.queue|
  }

  /** A sleeping thread is in the queue or about to be woken; a thread has a unit exactly if it
      holds one or was taken from the queue. */
  ghost predicate ThreadOk(s: State, t: nat) {
    && (t in s.queue ==> t != 0 && (Of(s, t).Asleep? || Of(s, t) == Woken(true)))
    && (t == 0 ==> Of(s, t).Out?)
    && (Of(s, t).Asleep? && t !in s.queue ==> t == s.waking)
    && (t in s.holders <==> Of(s, t).Holding? || (t !in s.queue && !Of(s, t).Out?))
    && (t == s.waking && t != 0 ==> t !in s.queue && (Of(s, t).Asleep? || Of(s, t) == Woken(true)))
  }

  ghost predicate ThreadsOk(s: State) {
    forall t :: ThreadOk(s, t)
  }

  /** Waits in the queue are in order of arrival, the newest first. */
  ghost predicate QueueInOrder(q: seq<nat>, ticket: map<nat, nat>, arrived: nat) {
    && Distinct(q)
    && (forall t :: t in q ==> t in ticket && ticket[t] < arrived)
    && (forall j, k :: 0 <= j < k < |q| ==> Get(ticket, q[k]) < Get(ticket, q[j]))
  }

  /** Waits are served in order of arrival, and before those that are still in the queue. */
  ghost predicate ServedInOrder(q: seq<nat>, ticket: map<nat, nat>, arrived: nat, served: seq<nat>) {
    && (forall j, k :: 0 <= j < |served| && 0 <= k < |q| ==> served[j] < Get(ticket, q[k]))
    && (forall j, k :: 0 <= j < k < |served| ==> served[j] < served[k])
    && (forall j :: 0 <= j < |served| ==> served[j] < arrived)
  }

  ghost predicate InOrder(s: State) {
    QueueInOrder(s.queue, s.ticket, s.arrived) && ServedInOrder(s.queue, s.ticket, s.arrived, s.served)
  }

  ghost predicate Inv(s: State) {
    Accounted(s) && ThreadsOk(s) && InOrder(s)
  }

  lemma WaitKeeps(s: State, s': State, t: nat, interruptible: bool)
    requires Inv(s) && Wait(s, s', t, interruptible)
    ensures Inv(s')
  {
    hide QueueInOrder, ServedInOrder;
    assert ThreadOk(s, t);
    WaitOrder(s, s', t, interruptible);
    forall u
      ensures ThreadOk(s', u)
    {
      assert ThreadOk(s, u);
    }
  }

  lemma WaitOrder(s: State, s': State, t: nat, interruptible: bool)
    requires InOrder(s) && Wait(s, s', t, interruptible) && t !in s.queue
    ensures InOrder(s')
  {
    hide Of, QueueInOrder, ServedInOrder;
    JoinOrder(s.queue, s.ticket, s.arrived, s.served, t);
  }

  lemma JoinOrder(q: seq<nat>, ticket: map<nat, nat>, arrived: nat, served: seq<nat>, t: nat)
    requires QueueInOrder(q, ticket, arrived) && ServedInOrder(q, ticket, arrived, served) && t !in q
    ensures QueueInOrder([t] + q, ticket[t := arrived], arrived + 1)
    ensures ServedInOrder([t] + q, ticket[t := arrived], arrived + 1, served)
  {
    assert forall k :: 0 < k < |[t] + q| ==> ([t] + q)[k] == q[k - 1] && q[k - 1] in q;
  }

  lemma TestKeeps(s: State, s': State, t: nat)
    requires Inv(s) && Test(s, s', t)
    ensures Inv(s')
  {
    forall u
      ensures ThreadOk(s', u)
    {
      assert ThreadOk(s, u);
    }
  }

  lemma SignalledKeeps(s: State)
    requires Inv(s) && Unlocked(s)
    ensures Inv(Signalled(s))
  {
    hide QueueInOrder, ServedInOrder;
    var s' := Signalled(s);
    if s.queue != [] {
      TakeOrder(s.queue, s.ticket, s.arrived, s.served);
      assert Last(s.queue) in s.queue && ThreadOk(s, Last(s.queue));
    }
    forall u
      ensures ThreadOk(s', u)
    {
      assert ThreadOk(s, u);
    }
  }

  lemma TakeOrder(q: seq<nat>, ticket: map<nat, nat>, arrived: nat, served: seq<nat>)
    requires QueueInOrder(q, ticket, arrived) && ServedInOrder(q, ticket, arrived, served) && q != []
    ensures QueueInOrder(q[..|q| - 1], ticket, arrived)
    ensures ServedInOrder(q[..|q| - 1], ticket, arrived, served + [Get(ticket, Last(q))])
    ensures forall t :: t in q[..|q| - 1] <==> t in q && t != Last(q)
  {
    hide ServedInOrder;
    var r := q[..|q| - 1];
    assert q == r + [Last(q)] && Last(q) in q;
    assert forall k :: 0 <= k < |r| ==> r[k] == q[k] && r[k] in q && Get(ticket, q[|q| - 1]) < Get(ticket, q[k]);
    TakeServed(q, ticket, arrived, served);
  }

  lemma TakeServed(q: seq<nat>, ticket: map<nat, nat>, arrived: nat, served: seq<nat>)
    requires QueueInOrder(q, ticket, arrived) && ServedInOrder(q, ticket, arrived, served) && q != []
    ensures ServedInOrder(q[..|q| - 1], ticket, arrived, served + [Get(ticket, Last(q))])
  {
    var r, served' := q[..|q| - 1], served + [Get(ticket, Last(q))];
    assert Last(q) in q;
    forall j, k | 0 <= j < |served'| && 0 <= k < |r|
      ensures served'[j] < Get(ticket, r[k])
    {
      assert r[k] == q[k] && (j < |served| ==> served'[j] == served[j]);
    }
  }

  lemma ReleaseKeeps(s: State, s': State, t: nat)
    requires Inv(s) && Release(s, s', t)
    ensures Inv(s')
  {
    hide QueueInOrder, ServedInOrder, Signalled;
    var s1 := Put(s, t, Out).(holders := s.holders - {t});
    forall u
      ensures ThreadOk(s1, u)
    {
      assert ThreadOk(s, u) && ThreadOk(s, t);
    }
    SignalledKeeps(s1);
  }

  lemma ConsumeKeeps(s: State, s': State, t: nat)
    requires Inv(s) && Consume(s, s', t)
    ensures Inv(s')
  {
    forall u
      ensures ThreadOk(s', u)
    {
      assert ThreadOk(s, u) && ThreadOk(s, t);
    }
  }

  lemma WakeKeeps(s: State, s': State)
    requires Inv(s) && Wake(s, s')
    ensures Inv(s')
  {
    forall u
      ensures ThreadOk(s', u)
    {
      assert ThreadOk(s, u);
    }
  }

  lemma InterruptKeeps(s: State, s': State, t: nat)
    requires Inv(s) && Interrupt(s, s', t)
    ensures Inv(s')
  {
    forall u
      ensures ThreadOk(s', u)
    {
      assert ThreadOk(s, u);
    }
  }

  lemma ResumeKeeps(s: State, s': State, t: nat)
    requires Inv(s) && Resume(s, s', t)
    ensures Inv(s')
  {
    assert ThreadOk(s, t);
    forall u
      ensures ThreadOk(s', u)
    {
      assert ThreadOk(s, u);
    }
  }

  lemma RetractKeeps(s: State, s': State, t: nat)
    requires Inv(s) && Retract(s, s', t)
    ensures Inv(s')
  {
    hide QueueInOrder, ServedInOrder, Without;
    assert ThreadOk(s, t);
    RetractQueue(s, t);
    if t in s.queue { RetractOrder(s, t); }
    forall u
      ensures ThreadOk(s', u)
    {
      assert ThreadOk(s, u);
    }
  }

  lemma RetractQueue(s: State, t: nat)
    requires InOrder(s)
    ensures t in s.queue ==> |Without(s.queue, t)| == |s.queue| - 1
    ensures forall u :: u in Without(s.queue, t) <==> u in s.queue && u != t
  {
    if t in s.queue {
      var k :| 0 <= k < |s.queue| && s.queue[k] == t;
      WithoutAt(s.queue, k);
      StillIn(s.queue, k);
    }
  }

  lemma RetractOrder(s: State, t: nat)
    requires InOrder(s) && t in s.queue
    ensures QueueInOrder(Without(s.queue, t), s.ticket, s.arrived)
    ensures ServedInOrder(Without(s.queue, t), s.ticket, s.arrived, s.served)
  {
    var k :| 0 <= k < |s.queue| && s.queue[k] == t;
    WithoutAt(s.queue, k);
    RemoveOrder(s.queue, s.ticket, s.arrived, s.served, k);
  }

  lemma RemoveOrder(q: seq<nat>, ticket: map<nat, nat>, arrived: nat, served: seq<nat>, k: nat)
    requires QueueInOrder(q, ticket, arrived) && ServedInOrder(q, ticket, arrived, served) && k < |q|
    ensures QueueInOrder(q[..k] + q[k + 1..], ticket, arrived)
    ensures ServedInOrder(q[..k] + q[k + 1..], ticket, arrived, served)
  {
    StillIn(q, k);
    var r := q[..k] + q[k + 1..];
    assert forall j :: 0 <= j < |r| ==> r[j] == q[if j < k then j else j + 1];
  }

  lemma NextKeeps(s: State, s': State, step: Step)
    requires Inv(s) && Next(s, s', step)
    ensures Inv(s')
  {
    hide Inv, Wait, Test, Signalled, Release, Consume, Wake, Interrupt, Resume, Retract;
    match step
    case WaitStep(t, interruptible) => WaitKeeps(s, s', t, interruptible);
    case TestStep(t) => TestKeeps(s, s', t);
    case SignalStep => SignalledKeeps(s);
    case LimitStep(limit) => if s.i < limit { SignalledKeeps(s); }
    case ReleaseStep(t) => ReleaseKeeps(s, s', t);
    case ConsumeStep(t) => ConsumeKeeps(s, s', t);
    case WakeStep => WakeKeeps(s, s');
    case InterruptStep(t) => InterruptKeeps(s, s', t);
    case ResumeStep(t) => ResumeKeeps(s, s', t);
    case RetractStep(t) => RetractKeeps(s, s', t);
  }

  // ----- Runs

  ghost predicate IsRun(run: seq<State>, steps: seq<Step>) {
    && |run| == |steps| + 1 && Init(run[0])
    && forall k :: 0 <= k < |steps| ==> Next(run[k], run[k + 1], steps[k])
  }

  lemma InitInv(s: State)
    requires Init(s)
    ensures Inv(s)
  {}

  lemma {:induction false} RunInv(run: seq<State>, steps: seq<Step>, k: nat)
    requires IsRun(run, steps) && k < |run|
    ensures Inv(run[k])
  {
    hide Init, Next, Inv;
    if k == 0 {
      InitInv(run[0]);
    } else {
      RunInv(run, steps, k - 1);
      NextKeeps(run[k - 1], run[k], steps[k - 1]);
    }
  }

  /** In every run the queue is as long as the counter is below zero, every unit is accounted for,
      and a signal that finds the counter below zero finds a thread. */
  lemma AccountingHolds(run: seq<State>, steps: seq<Step>, k: nat)
    requires IsRun(run, steps) && k < |run|
    ensures var s := run[k];
            && |s.queue| == Waiting(s.i) && s.i == s.initial + s.signals - s.grants - |s.queue|
            && (s.i + 1 <= 0 ==> s.queue != [])
  {
    RunInv(run, steps, k);
  }

  /** No wake-up is lost: a thread asleep is in the queue, or a signal holds the lock to wake it. A
      thread taken from the queue has its unit, whether it was interrupted or not. */
  lemma NoLostWakeup(run: seq<State>, steps: seq<Step>, k: nat, t: nat)
    requires IsRun(run, steps) && k < |run|
    ensures Of(run[k], t).Asleep? ==> t in run[k].queue || t == run[k].waking
    ensures (Of(run[k], t).Woken? || Of(run[k], t).Asleep?) && t !in run[k].queue ==> t in run[k].holders
    ensures t in run[k].queue ==> t !in run[k].holders
  {
    RunInv(run, steps, k);
    assert ThreadOk(run[k], t);
  }

  /** Waits served from the queue are served in the order in which they arrived. */
  lemma ServedFifo(run: seq<State>, steps: seq<Step>, k: nat, i: nat, j: nat)
    requires IsRun(run, steps) && k < |run| && i < j < |run[k].served|
    ensures run[k].served[i] < run[k].served[j]
    ensures forall t :: t in run[k].queue ==> run[k].served[j] < Get(run[k].ticket, t)
  {
    RunInv(run, steps, k);
    forall t | t in run[k].queue
      ensures run[k].served[j] < Get(run[k].ticket, t)
    {
      var x :| 0 <= x < |run[k].queue| && run[k].queue[x] == t;
    }
  }

  // ----- A mutex: one unit, given back only by the thread that has it

  predicate MutexStep(step: Step) {
    !step.SignalStep? && !step.LimitStep? && !step.ConsumeStep?
  }

  ghost predicate MutexInv(s: State) {
    Inv(s) && s.initial == 1 && |s.holders| == s.grants - s.signals
  }

  lemma MutexKeeps(s: State, s': State, step: Step)
    requires MutexInv(s) && MutexStep(step) && Next(s, s', step)
    ensures MutexInv(s')
  {
    NextKeeps(s, s', step);
    hide InOrder, ThreadsOk, Accounted;
    HoldersAfter(s, s', step);
  }

  lemma HoldersAfter(s: State, s': State, step: Step)
    requires Inv(s) && MutexStep(step) && Next(s, s', step)
    ensures |s'.holders| - |s.holders| == (s'.grants - s'.signals) - (s.grants - s.signals) && s'.initial == s.initial
  {
    hide InOrder, Accounted, ThreadsOk, Release;
    if step.ReleaseStep? { ReleaseHolders(s, s', step.t); }
  }

  /** The thread that is handed the unit did not have one. */
  lemma ReleaseHolders(s: State, s': State, t: nat)
    requires Inv(s) && Release(s, s', t)
    ensures |s'.holders| - |s.holders| == (s'.grants - s'.signals) - (s.grants - s.signals) && s'.initial == s.initial
  {
    hide InOrder, Accounted;
    if s.queue != [] {
      var u := Last(s.queue);
      assert u in s.queue && ThreadOk(s, u);
      assert u !in s.holders;
      hide ThreadsOk;
      assert |s.holders - {t}| == |s.holders| - 1;
    }
  }

  lemma {:induction false} MutexRunInv(run: seq<State>, steps: seq<Step>, k: nat)
    requires IsRun(run, steps) && k < |run| && run[0].initial == 1
    requires forall j :: 0 <= j < |steps| ==> MutexStep(steps[j])
    ensures MutexInv(run[k])
  {
    hide Next, MutexStep;
    if k == 0 {
      InitInv(run[0]);
    } else {
      MutexRunInv(run, steps, k - 1);
      MutexKeeps(run[k - 1], run[k], steps[k - 1]);
    }
  }

  /** A mutex never has two holders, counting a thread that was handed the unit and is not back. */
  lemma MutualExclusion(run: seq<State>, steps: seq<Step>, k: nat, t: nat, u: nat)
    requires IsRun(run, steps) && k < |run| && run[0].initial == 1
    requires forall j :: 0 <= j < |steps| ==> MutexStep(steps[j])
    requires t in run[k].holders && u in run[k].holders
    ensures t == u
  {
    MutexRunInv(run, steps, k);
    var s := run[k];
    assert |s.holders| <= 1;
    if t != u {
      assert {t, u} <= s.holders;
      SubsetSize({t, u}, s.holders);
    }
  }

  lemma {:induction false} SubsetSize(a: set<nat>, b: set<nat>)
    requires a <= b
    ensures |a| <= |b|
  {
    if a != {} {
      var x :| x in a;
      SubsetSize(a - {x}, b - {x});
    }
  }

  // ----- The steps are the operations

  /** A semaphore whose counter and queue are those of a state. */
  ghost predicate Shows(sem: Semaphore, s: State)
    reads sem
  {
    sem.Valid() && sem.i == s.i && sem.queue == s.queue
  }

  /** The locked part of semaphore_wait takes the step Wait. */
  method DoWait(sem: Semaphore, ghost s: State, t: nat, interruptible: bool) returns (granted: bool, ghost s': State)
    requires Shows(sem, s) && Inv(s) && Unlocked(s) && t != 0 && Of(s, t).Out? && t !in s.holders
    modifies sem
    ensures Shows(sem, s') && Wait(s, s', t, interruptible) && granted == Of(s', t).Holding?
  {
    assert ThreadOk(s, t);
    granted := sem.Down(t);
    s' := if granted then Put(s, t, Holding).(i := s.i - 1, grants := s.grants + 1, holders := s.holders + {t})
          else Put(s, t, Asleep(interruptible)).(i := s.i - 1, queue := [t] + s.queue, arrived := s.arrived + 1,
                                                ticket := s.ticket[t := s.arrived]);
  }

  /** semaphore_signal takes the step Signal, and the thread that it wakes is the one that the step
      is about to wake. */
  method DoSignal(sem: Semaphore, ghost s: State) returns (t: nat, ghost s': State)
    requires Shows(sem, s) && Inv(s) && Unlocked(s)
    modifies sem
    ensures Shows(sem, s') && Signal(s, s') && t == s'.waking
  {
    t := sem.Up();
    s' := Signalled(s);
  }

  /** semaphore_signal_limit takes the step SignalLimit. */
  method DoSignalLimit(sem: Semaphore, ghost s: State, limit: int) returns (done: bool, t: nat, ghost s': State)
    requires Shows(sem, s) && Inv(s) && Unlocked(s)
    modifies sem
    ensures Shows(sem, s') && SignalLimit(s, s', limit) && t == s'.waking && done == (s' != s)
  {
    done, t := sem.UpTo(limit);
    s' := if done then Signalled(s) else s;
  }

  /** The end of an interrupted semaphore_wait takes the step Retract. */
  method DoRetract(sem: Semaphore, ghost s: State, t: nat) returns (failed: bool, ghost s': State)
    requires Shows(sem, s) && Inv(s) && Unlocked(s) && Of(s, t) == Woken(true)
    modifies sem
    ensures Shows(sem, s') && Retract(s, s', t) && failed == Of(s', t).Out?
  {
    assert ThreadOk(s, t);
    NotQueued(s.queue, t);
    failed := sem.Retract(t);
    s' := if t in s.queue then Put(s, t, Out).(i := s.i + 1, queue := Without(s.queue, t)) else Put(s, t, Holding);
  }

  lemma NotQueued(q: seq<nat>, t: nat)
    ensures t !in q ==> Without(q, t) == q
  {}

  /** semaphore_test takes the step Test. */
  method DoTest(sem: Semaphore, ghost s: State, t: nat) returns (granted: bool, ghost s': State)
    requires Shows(sem, s) && Inv(s) && Unlocked(s) && t != 0 && Of(s, t).Out? && t !in s.holders
    modifies sem
    ensures Shows(sem, s') && Test(s, s', t) && granted == Of(s', t).Holding?
  {
    granted := sem.Test();
    s' := if granted then Put(s, t, Holding).(i := s.i - 1, grants := s.grants + 1, holders := s.holders + {t}) else s;
  }
}
