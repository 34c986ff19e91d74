/**
 Blocked readers and writers of a pipe (kernel-src/fs/pipefs.c). A round of a call that cannot go on
 puts an entry at the pipe's poll header, unless internalpoll has something to report, and sleeps; an
 event at the header signals every sleeper with an entry for it. What happens under the lock of the
 pipe is one step.
 */
module PipeWaits {
  import opened Common
  import Pipes

  /** A sleeping call: whether it has an entry at the header, and whether an event has reached it. */
  datatype Sleeper = Sleeper(registered: bool, signalled: bool)

  /** A pipe, the number of its open write ends, and the calls that sleep. */
  datatype State = State(pipe: Pipes.State, writers: nat, asleepReaders: map<nat, Sleeper>,
                         asleepWriters: map<nat, Sleeper>)

  /** Whether internalpoll reports anything for POLLIN and for POLLOUT. */
  predicate ReadReady(ring: seq<byte>, writers: nat) {
    writers == 0 || ring != []
  }

  predicate WriteReady(ring: seq<byte>, readers: nat) {
    readers == 0 || |ring| < Pipes.CAPACITY - Pipes.ATOMIC
  }

  /** poll_event for what the sleepers wait for. */
  function Signal(m: map<nat, Sleeper>): (m': map<nat, Sleeper>)
    ensures m'.Keys == m.Keys
  {
    map t | t in m :: if m[t].registered then m[t].(signalled := true) else m[t]
  }

  predicate Runs(m: map<nat, Sleeper>, t: nat) {
    t in m ==> m[t].signalled
  }

  // ----- Steps

  ghost predicate StartWrite(s: State, s': State, w: nat, data: seq<byte>, nonblock: bool) {
    Pipes.StartWrite(s.pipe, s'.pipe, w, data, nonblock) && s' == s.(pipe := s'.pipe)
  }

  /** A round of pipefs_write, up to the sleep. */
  ghost predicate WriteRound(s: State, s': State, w: nat) {
    && Runs(s.asleepWriters, w) && Pipes.WriteRound(s.pipe, s'.pipe, w)
    && s'.writers == s.writers
    && s'.asleepReaders == (if s'.pipe.ring == s.pipe.ring then s.asleepReaders else Signal(s.asleepReaders))
    && s'.asleepWriters == if s'.pipe.writers[w].status.Active?
                           then s.asleepWriters[w := Sleeper(!WriteReady(s'.pipe.ring, s.pipe.readers), false)]
                           else s.asleepWriters - {w}
  }

  /** A round of pipefs_read, up to the sleep. */
  ghost predicate ReadRound(s: State, s': State, r: nat, size: nat, nonblock: bool) {
    && Runs(s.asleepReaders, r) && s'.writers == s.writers
    && if ReadReady(s.pipe.ring, s.writers) then
         && Pipes.Read(s.pipe, s'.pipe, size) && s'.asleepReaders == s.asleepReaders - {r}
         && s'.asleepWriters == if |s'.pipe.ring| < Pipes.CAPACITY - Pipes.ATOMIC then Signal(s.asleepWriters)
                                else s.asleepWriters
       else
         && s'.pipe == s.pipe && s'.asleepWriters == s.asleepWriters
         && s'.asleepReaders == if nonblock then s.asleepReaders - {r}
                                else s.asleepReaders[r := Sleeper(!ReadReady(s.pipe.ring, s.writers), false)]
  }

  ghost predicate InterruptRead(s: State, s': State, r: nat) {
    r in s.asleepReaders && s' == s.(asleepReaders := s.asleepReaders - {r})
  }

  ghost predicate InterruptWrite(s: State, s': State, w: nat) {
    && w in s.asleepWriters && Pipes.InterruptWrite(s.pipe, s'.pipe, w)
    && s' == s.(pipe := s'.pipe, asleepWriters := s.asleepWriters - {w})
  }

  function Ends(used: bool): (n: nat) {
    if used then 1 else 0
  }

  ghost predicate Open(s: State, s': State, read: bool, write: bool) {
    && Pipes.SetReaders(s.pipe, s'.pipe, s.pipe.readers + Ends(read))
    && s' == s.(pipe := s'.pipe, writers := s.writers + Ends(write))
  }

  /** pipefs_close: the last end of a kind signals those that wait for the other. */
  ghost predicate Close(s: State, s': State, read: bool, write: bool) {
    && Ends(read) <= s.pipe.readers && Ends(write) <= s.writers
    && Pipes.SetReaders(s.pipe, s'.pipe, s.pipe.readers - Ends(read)) && s'.writers == s.writers - Ends(write)
    && s'.asleepWriters == (if s'.pipe.readers == 0 then Signal(s.asleepWriters) else s.asleepWriters)
    && s'.asleepReaders == if s'.writers == 0 then Signal(s.asleepReaders) else s.asleepReaders
  }

  datatype Step =
    | StartStep(w: nat, data: seq<byte>, nonblock: bool) | WriteStep(w: nat)
    | ReadStep(r: nat, size: nat, nonblock: bool) | InterruptReadStep(r: nat) | InterruptWriteStep(w: nat)
    | OpenStep(read: bool, write: bool) | CloseStep(read: bool, write: bool)

  ghost predicate Next(s: State, s': State, step: Step) {
    match step
    case StartStep(w, data, nonblock) => StartWrite(s, s', w, data, nonblock)
    case WriteStep(w) => WriteRound(s, s', w)
    case ReadStep(r, size, nonblock) => ReadRound(s, s', r, size, nonblock)
    case InterruptReadStep(r) => InterruptRead(s, s', r)
    case InterruptWriteStep(w) => InterruptWrite(s, s', w)
    case OpenStep(read, write) => Open(s, s', read, write)
    case CloseStep(read, write) => Close(s, s', read, write)
  }

  ghost predicate Init(s: State) {
    Pipes.Init(s.pipe) && s.asleepReaders == map[] && s.asleepWriters == map[]
  }

  ghost predicate IsRun(run: seq<State>, steps: seq<Step>) {
    && |run| == |steps| + 1 && Init(run[0])
    && forall k :: 0 <= k < |steps| ==> Next(run[k], run[k + 1], steps[k])
  }

  // ----- The pipe of a run goes through a run of a pipe without sleep

  /** What a step does to the pipe. */
  function Seen(s: State, step: Step): (p: Pipes.Step) {
    match step
    case StartStep(w, data, nonblock) => Pipes.StartStep(w, data, nonblock)
    case WriteStep(w) => Pipes.WriteStep(w)
    case ReadStep(_, size, _) =>
      if ReadReady(s.pipe.ring, s.writers) then Pipes.ReadStep(size) else Pipes.ReadersStep(s.pipe.readers)
    case InterruptReadStep(_) => Pipes.ReadersStep(s.pipe.readers)
    case InterruptWriteStep(w) => Pipes.InterruptStep(w)
    case OpenStep(read, _) => Pipes.ReadersStep(s.pipe.readers + Ends(read))
    case CloseStep(read, _) =>
      Pipes.ReadersStep(if Ends(read) <= s.pipe.readers then s.pipe.readers - Ends(read) else 0)
  }

  lemma SeenNext(s: State, s': State, step: Step)
    requires Next(s, s', step)
    ensures Pipes.Next(s.pipe, s'.pipe, Seen(s, step))
  {
    hide Pipes.StartWrite, Pipes.WriteRound, Pipes.Read, Pipes.InterruptWrite;
  }

  /** Whatever holds of every run of a pipe holds of the pipe here: the bytes that come out are those
      that were accepted, in order. */
  lemma PipeRun(run: seq<State>, steps: seq<Step>)
    requires IsRun(run, steps)
    ensures Pipes.IsRun(seq(|run|, k requires 0 <= k < |run| => run[k].pipe),
                        seq(|steps|, k requires 0 <= k < |steps| => Seen(run[k], steps[k])))
  {
    hide Next, Pipes.Next;
    forall k | 0 <= k < |steps|
      ensures Pipes.Next(run[k].pipe, run[k + 1].pipe, Seen(run[k], steps[k]))
    {
      SeenNext(run[k], run[k + 1], steps[k]);
    }
  }

  // ----- The invariant

  /** A reader that no event has reached has nothing to read, and is not at the end of the file. */
  ghost predicate ReaderOk(s: State, r: nat)
    requires r in s.asleepReaders
  {
    s.asleepReaders[r].registered && (!s.asleepReaders[r].signalled ==> !ReadReady(s.pipe.ring, s.writers))
  }

  /** A registered writer that no event has reached has a reader, and at most 4096 bytes of room. */
  ghost predicate WriterOk(s: State, w: nat)
    requires w in s.asleepWriters
  {
    var z := s.asleepWriters[w];
    && w in s.pipe.writers && s.pipe.writers[w].status.Active? && !s.pipe.writers[w].nonblock
    && (z.signalled ==> z.registered)
    && (z.registered && !z.signalled ==> !WriteReady(s.pipe.ring, s.pipe.readers))
  }

  ghost predicate Inv(s: State) {
    && Pipes.Inv(s.pipe)
    && (forall r :: r in s.asleepReaders ==> ReaderOk(s, r)) && (forall w :: w in s.asleepWriters ==> WriterOk(s, w))
  }

  lemma ReadersKept(s: State, s': State, step: Step)
    requires Inv(s) && Next(s, s', step)
    ensures forall r :: r in s'.asleepReaders ==> ReaderOk(s', r)
  {
    hide Pipes.Inv;
    forall r | r in s'.asleepReaders
      ensures ReaderOk(s', r)
    {
      assert r in s.asleepReaders ==> ReaderOk(s, r);
    }
  }

  /** A write that goes to sleep has an entry exactly if there is a reader. */
  lemma RegisteredExact(s: State, s': State, w: nat)
    requires Inv(s) && WriteRound(s, s', w) && w in s'.asleepWriters
    ensures s'.asleepWriters[w] == Sleeper(s.pipe.readers != 0, false) && !s'.pipe.writers[w].nonblock
  {
    hide Pipes.Attempt;
    var c := s.pipe.writers[w];
    assert Pipes.WriterOk(s.pipe, w);
    Pipes.AttemptExact(s.pipe.ring, s.pipe.readers, |c.data|, c.done, c.nonblock);
  }

  lemma WritersKept(s: State, s': State, step: Step)
    requires Inv(s) && Next(s, s', step)
    ensures forall w :: w in s'.asleepWriters ==> WriterOk(s', w)
  {
    hide Pipes.Inv, Pipes.Attempt;
    if step.WriteStep? && step.w in s'.asleepWriters { RegisteredExact(s, s', step.w); }
    forall w | w in s'.asleepWriters
      ensures WriterOk(s', w)
    {
      assert w in s.asleepWriters ==> WriterOk(s, w);
    }
  }

  lemma NextKeeps(s: State, s': State, step: Step)
    requires Inv(s) && Next(s, s', step)
    ensures Inv(s')
  {
    hide Next, Pipes.Next, Pipes.Inv;
    SeenNext(s, s', step);
    Pipes.NextKeeps(s.pipe, s'.pipe, Seen(s, step));
    ReadersKept(s, s', step);
    WritersKept(s, s', step);
  }

  lemma {:induction false} RunInv(run: seq<State>, steps: seq<Step>, k: nat)
    requires IsRun(run, steps) && k < |run|
    ensures Inv(run[k])
  {
    hide Next;
    if k > 0 {
      hide Inv;
      RunInv(run, steps, k - 1);
      NextKeeps(run[k - 1], run[k], steps[k - 1]);
    }
  }

  // ----- Theorems

  /** No reader is lost: in every run, a sleeping read that no event has reached finds nothing to read
      and is not at the end of the file. */
  lemma NoLostReader(run: seq<State>, steps: seq<Step>, k: nat, r: nat)
    requires IsRun(run, steps) && k < |run| && r in run[k].asleepReaders && !run[k].asleepReaders[r].signalled
    ensures run[k].pipe.ring == [] && run[k].writers != 0
  {
    RunInv(run, steps, k);
    assert ReaderOk(run[k], r);
  }

  /** In every run, a sleeping write with an entry that no event has reached has a reader and at most
      4096 bytes of room. */
  lemma WaitingWriter(run: seq<State>, steps: seq<Step>, k: nat, w: nat)
    requires IsRun(run, steps) && k < |run| && w in run[k].asleepWriters
    requires run[k].asleepWriters[w] == Sleeper(true, false)
    ensures run[k].pipe.readers != 0 && Pipes.CAPACITY - |run[k].pipe.ring| <= Pipes.ATOMIC
  {
    RunInv(run, steps, k);
    assert WriterOk(run[k], w);
  }

  /** No deadlock: a reader and a writer with an entry never wait for each other. */
  lemma NoDeadlock(run: seq<State>, steps: seq<Step>, k: nat, r: nat, w: nat)
    requires IsRun(run, steps) && k < |run| && r in run[k].asleepReaders && w in run[k].asleepWriters
    requires run[k].asleepWriters[w].registered
    ensures run[k].asleepReaders[r].signalled || run[k].asleepWriters[w].signalled
  {
    RunInv(run, steps, k);
    assert ReaderOk(run[k], r) && WriterOk(run[k], w);
  }

  /** The steps of one write call. */
  predicate StepOf(step: Step, w: nat) {
    step == WriteStep(w) || step == InterruptWriteStep(w)
  }

  lemma SleepsOn(s: State, s': State, step: Step, w: nat)
    requires Next(s, s', step) && !StepOf(step, w) && w in s.asleepWriters
    ensures w in s'.asleepWriters && s'.asleepWriters[w].registered == s.asleepWriters[w].registered
  {
    hide Pipes.StartWrite, Pipes.WriteRound, Pipes.Read, Pipes.InterruptWrite;
  }

  /** Whether a sleeping write can ever be signalled was decided when it went to sleep: it can, exactly
      if there was a reader. */
  lemma {:induction false} LostExactly(run: seq<State>, steps: seq<Step>, i: nat, k: nat, w: nat)
    requires IsRun(run, steps) && i < k < |run| && steps[i] == WriteStep(w) && w in run[i + 1].asleepWriters
    requires forall j :: i < j < k ==> !StepOf(steps[j], w)
    ensures w in run[k].asleepWriters && (run[k].asleepWriters[w].registered <==> run[i].pipe.readers != 0)
    ensures run[i].pipe.readers == 0 ==> !run[k].asleepWriters[w].signalled
  {
    hide Pipes.Next, Pipes.Inv;
    RunInv(run, steps, k);
    if k == i + 1 {
      RunInv(run, steps, i);
      RegisteredExact(run[i], run[k], w);
    } else {
      LostExactly(run, steps, i, k - 1, w);
      SleepsOn(run[k - 1], run[k], steps[k - 1], w);
      assert WriterOk(run[k], w);
    }
  }

  /** A write that went to sleep with no reader sleeps until it is interrupted, whatever happens. */
  lemma {:induction false} LostForever(run: seq<State>, steps: seq<Step>, i: nat, k: nat, w: nat)
    requires IsRun(run, steps) && i < k < |run| && steps[i] == WriteStep(w) && w in run[i + 1].asleepWriters
    requires run[i].pipe.readers == 0 && forall j :: i < j < k ==> steps[j] != InterruptWriteStep(w)
    ensures w in run[k].asleepWriters && run[k].asleepWriters[w] == Sleeper(false, false)
  {
    hide Pipes.Next, Pipes.Inv;
    if k == i + 1 {
      LostExactly(run, steps, i, k, w);
    } else {
      LostForever(run, steps, i, k - 1, w);
      RunInv(run, steps, k);
      assert !WriteRound(run[k - 1], run[k], w);
      SleepsOn(run[k - 1], run[k], steps[k - 1], w);
      assert WriterOk(run[k], w);
    }
  }

  // ----- A read that makes too little room to signal

  /** The bytes of room that let a write go on. */
  function Need(c: Pipes.Writer): (n: nat) {
    if |c.data| <= Pipes.ATOMIC then |c.data| else 1
  }

  /** Another round of a write would take bytes. */
  ghost predicate CouldGo(s: State, w: nat) {
    && w in s.pipe.writers && |s.pipe.ring| <= Pipes.CAPACITY && s.pipe.writers[w].done <= |s.pipe.writers[w].data|
    && var c := s.pipe.writers[w];
       Pipes.Attempt(s.pipe.ring, s.pipe.readers, |c.data|, c.done, c.nonblock).took != 0
  }

  lemma CouldGoExact(s: State, w: nat)
    requires Inv(s) && w in s.asleepWriters && s.pipe.readers != 0
    ensures CouldGo(s, w) <==> Need(s.pipe.writers[w]) <= Pipes.CAPACITY - |s.pipe.ring|
  {
    assert WriterOk(s, w) && Pipes.WriterOk(s.pipe, w);
  }

  /** A read signals a waiting write exactly if it leaves more than 4096 bytes of room. So it signals
      every write that could go on, exactly unless the room it leaves is between the need of the write
      and 4096. */
  lemma ReadSignals(s: State, s': State, r: nat, size: nat, nonblock: bool, w: nat)
    requires Inv(s) && ReadRound(s, s', r, size, nonblock) && ReadReady(s.pipe.ring, s.writers)
    requires w in s.asleepWriters && s.asleepWriters[w] == Sleeper(true, false)
    ensures var room := Pipes.CAPACITY - |s'.pipe.ring|;
            && w in s'.asleepWriters && (s'.asleepWriters[w].signalled <==> Pipes.ATOMIC < room)
            && ((CouldGo(s', w) ==> s'.asleepWriters[w].signalled)
                <==> !(Need(s.pipe.writers[w]) <= room <= Pipes.ATOMIC))
  {
    hide Pipes.Inv, Pipes.Attempt;
    assert WriterOk(s, w);
    NextKeeps(s, s', ReadStep(r, size, nonblock));
    CouldGoExact(s', w);
  }

  // ----- Two runs

  function Zeros(n: nat): (s: seq<byte>)
    ensures |s| == n
  {
    seq(n, _ => 0)
  }

  /** A pipe with one reader and one writer, and after a write has begun and has filled it. */
  function Opened(): (s: State) {
    State(Pipes.State([], 1, map[], [], []), 1, map[], map[])
  }

  function Begun(): (s: State) {
    var d := Zeros(Pipes.CAPACITY);
    State(Pipes.State([], 1, map[0 := Pipes.Writer(d, true, 0, Pipes.Active)], [], []), 1, map[], map[])
  }

  function Filled(): (s: State) {
    var d := Zeros(Pipes.CAPACITY);
    State(Pipes.State(d, 1, map[0 := Pipes.Writer(d, true, |d|, Pipes.Returned(|d|))], [Pipes.Chunk(0, d)], []),
          1, map[], map[])
  }

  lemma Fill()
    ensures Init(Opened()) && Next(Opened(), Begun(), StartStep(0, Zeros(Pipes.CAPACITY), true))
    ensures Next(Begun(), Filled(), WriteStep(0))
  {
    var d := Zeros(Pipes.CAPACITY);
    assert d[0..|d|] == d && [] + d == d;
    assert Begun().pipe.writers[0 := Pipes.Writer(d, true, |d|, Pipes.Returned(|d|))] == Filled().pipe.writers;
  }

  /** A write of one byte begins, and sleeps at once. */
  lemma Sleep(f: State, s: State, s': State)
    requires |f.pipe.ring| == Pipes.CAPACITY && 1 !in f.pipe.writers && f.asleepWriters == map[]
    requires s == f.(pipe := f.pipe.(writers := f.pipe.writers[1 := Pipes.Writer([0], false, 0, Pipes.Active)]))
    requires s' == s.(asleepWriters := map[1 := Sleeper(f.pipe.readers != 0, false)])
    ensures Next(f, s, StartStep(1, [0], false)) && Next(s, s', WriteStep(1))
  {}

  /** A write of one byte into a full pipe sleeps on after a read has made room for it. */
  lemma StalledWrite() returns (run: seq<State>, steps: seq<Step>)
    ensures IsRun(run, steps) && |run| == 6
    ensures run[5].asleepWriters == map[1 := Sleeper(true, false)] && CouldGo(run[5], 1)
  {
    var d, f := Zeros(Pipes.CAPACITY), Filled();
    var s3 := f.(pipe := f.pipe.(writers := f.pipe.writers[1 := Pipes.Writer([0], false, 0, Pipes.Active)]));
    var s4 := s3.(asleepWriters := map[1 := Sleeper(true, false)]);
    var s5 := s4.(pipe := s4.pipe.(ring := d[1..], taken := [] + d[..1]));
    Fill();
    Sleep(f, s3, s4);
    assert Next(s4, s5, ReadStep(0, 1, false));
    run := [Opened(), Begun(), f, s3, s4, s5];
    steps := [StartStep(0, d, true), WriteStep(0), StartStep(1, [0], false), WriteStep(1), ReadStep(0, 1, false)];
    hide Next;
    assert IsRun(run, steps);
  }

  /** A write of one byte that goes to sleep after the last reader has closed sleeps on when another
      reader has opened the pipe and emptied it. */
  lemma LostWrite() returns (run: seq<State>, steps: seq<Step>)
    ensures IsRun(run, steps) && |run| == 8
    ensures run[7].asleepWriters == map[1 := Sleeper(false, false)] && CouldGo(run[7], 1) && run[7].pipe.ring == []
  {
    var d, f := Zeros(Pipes.CAPACITY), Filled();
    var s3 := f.(pipe := f.pipe.(readers := 0));
    var s4 := s3.(pipe := s3.pipe.(writers := f.pipe.writers[1 := Pipes.Writer([0], false, 0, Pipes.Active)]));
    var s5 := s4.(asleepWriters := map[1 := Sleeper(false, false)]);
    var s6 := s5.(pipe := s5.pipe.(readers := 1));
    var s7 := s6.(pipe := s6.pipe.(ring := [], taken := [] + d[..|d|]));
    Fill();
    assert Next(f, s3, CloseStep(true, false)) by { assert Signal(map[]) == map[]; }
    Sleep(s3, s4, s5);
    assert Next(s5, s6, OpenStep(true, false));
    assert Next(s6, s7, ReadStep(0, |d|, false)) by {
      assert d[|d|..] == [] && Signal(s6.asleepWriters) == s6.asleepWriters;
    }
    run := [Opened(), Begun(), f, s3, s4, s5, s6, s7];
    steps := [StartStep(0, d, true), WriteStep(0), CloseStep(true, false), StartStep(1, [0], false), WriteStep(1),
              OpenStep(true, false), ReadStep(0, |d|, false)];
    hide Next;
    assert IsRun(run, steps);
  }
}
