/**
 Pipes of kernel-src/fs/pipefs.c: any interleaving of readers and writers. What happens under the
 lock of the pipe is one step; a blocked call tries again in a later step.
 */
module Pipes {
  import opened Arith
  import opened Common

  const ATOMIC: nat := 4096
  const CAPACITY: nat := 16 * 4096

  /** How a round of the loop in pipefs_write ends. AssertFailed stands for a failed assertion. */
  datatype Outcome = Wait | Ok(count: nat) | Again | BrokenPipe | AssertFailed

  /** A round takes bytes from the caller's buffer and ends in some way. */
  datatype Round = Round(took: nat, outcome: Outcome)

  function FreeSpace(ring: seq<byte>): (n: nat)
    requires |ring| <= CAPACITY
  {
    CAPACITY - |ring|
  }

  /** writetopipe of a number of bytes. */
  function WriteTo(ring: seq<byte>, readers: nat, size: nat): (r: Round)
    requires |ring| <= CAPACITY
  {
    if readers == 0 then Round(0, BrokenPipe)
    else var n := Min(size, FreeSpace(ring)); if n == 0 then Round(0, AssertFailed) else Round(n, Ok(n))
  }

  /** One round of pipefs_write for a buffer of which some bytes have been written already. */
  function Attempt(ring: seq<byte>, readers: nat, size: nat, done: nat, nonblock: bool): (r: Round)
    requires |ring| <= CAPACITY && done <= size
  {
    var atomic, free := size <= ATOMIC, FreeSpace(ring);
    if atomic then
      if !nonblock then if free >= size then WriteTo(ring, readers, size) else Round(0, Wait)
      else if free < size then Round(0, Again) else WriteTo(ring, readers, size)
    else if !nonblock then
      if free == 0 then Round(0, Wait)
      else
        var count := Min(free, size - done);
        var w := WriteTo(ring, readers, count);
        if !w.outcome.Ok? then w
        else if w.took != count then Round(w.took, AssertFailed)
        else if done + count == size then Round(count, Ok(size)) else Round(count, Wait)
    else if free != 0 then WriteTo(ring, readers, size) else Round(0, Again)
  }

  /** What a round does, said without its cases: it takes what fits, and all or nothing of a small
      write. A write of no bytes is the only one that would fail the assertion; the system calls return
      before they reach the pipe with one. */
  lemma AttemptExact(ring: seq<byte>, readers: nat, size: nat, done: nat, nonblock: bool)
    requires |ring| <= CAPACITY && done <= size
    requires (size <= ATOMIC || nonblock ==> done == 0) && (done == size ==> size == 0)
    ensures var r := Attempt(ring, readers, size, done, nonblock);
            && |ring| + r.took <= CAPACITY && done + r.took <= size
            && (size <= ATOMIC ==> r.took == 0 || r.took == size)
            && (r.outcome.Ok? ==> r.took != 0 && r.outcome.count == done + r.took)
            && (r.outcome.Ok? && (size <= ATOMIC || !nonblock) ==> r.outcome.count == size)
            && (r.outcome.Again? || r.outcome.BrokenPipe? || r.outcome.AssertFailed? ==> r.took == 0)
            && (r.outcome.Wait? ==>
                  && !nonblock && done + r.took < size
                  && if size <= ATOMIC then r.took == 0 && FreeSpace(ring) < size else |ring| + r.took == CAPACITY)
            && (r.outcome.BrokenPipe? ==> readers == 0)
            && (r.outcome.AssertFailed? <==> size == 0 && readers != 0)
  {}

  // ----- Runs

  datatype Status = Active | Returned(count: nat) | Failed

  datatype Writer = Writer(data: seq<byte>, nonblock: bool, done: nat, status: Status)

  /** Bytes that one call accepted in one round. */
  datatype Chunk = Chunk(writer: nat, bytes: seq<byte>)

  /** The ring, the open ends, the calls of write, and what was accepted and taken so far. */
  datatype State = State(ring: seq<byte>, readers: nat, writers: map<nat, Writer>, accepted: seq<Chunk>,
                         taken: seq<byte>)

  ghost predicate StartWrite(s: State, s': State, w: nat, data: seq<byte>, nonblock: bool) {
    w !in s.writers && data != [] && s' == s.(writers := s.writers[w := Writer(data, nonblock, 0, Active)])
  }

  function StatusAfter(o: Outcome): (st: Status) {
    match o
    case Wait => Active
    case Ok(n) => Returned(n)
    case _ => Failed
  }

  ghost predicate WriteRound(s: State, s': State, w: nat) {
    && w in s.writers && s.writers[w].status.Active? && |s.ring| <= CAPACITY && s.writers[w].done <= |s.writers[w].data|
    && var c := s.writers[w];
       var r := Attempt(s.ring, s.readers, |c.data|, c.done, c.nonblock);
       && c.done + r.took <= |c.data|
       && var bytes := c.data[c.done..c.done + r.took];
          s' == s.(ring := s.ring + bytes,
                   accepted := if bytes == [] then s.accepted else s.accepted + [Chunk(w, bytes)],
                   writers := s.writers[w := c.(done := c.done + r.took, status := StatusAfter(r.outcome))])
  }

  /** A blocked write is interrupted. */
  ghost predicate InterruptWrite(s: State, s': State, w: nat) {
    && w in s.writers && s.writers[w].status.Active?
    && s' == s.(writers := s.writers[w := s.writers[w].(status := Failed)])
  }

  /** pipefs_read takes what is there, up to the size asked for. */
  ghost predicate Read(s: State, s': State, size: nat) {
    var n := Min(size, |s.ring|);
    s' == s.(ring := s.ring[n..], taken := s.taken + s.ring[..n])
  }

  ghost predicate SetReaders(s: State, s': State, readers: nat) {
    s' == s.(readers := readers)
  }

  datatype Step = StartStep(w: nat, data: seq<byte>, nonblock: bool)
    | WriteStep(w: nat) | InterruptStep(w: nat) | ReadStep(size: nat) | ReadersStep(readers: nat)

  ghost predicate Next(s: State, s': State, step: Step) {
    match step
    case StartStep(w, data, nonblock) => StartWrite(s, s', w, data, nonblock)
    case WriteStep(w) => WriteRound(s, s', w)
    case InterruptStep(w) => InterruptWrite(s, s', w)
    case ReadStep(size) => Read(s, s', size)
    case ReadersStep(readers) => SetReaders(s, s', readers)
  }

  ghost predicate Init(s: State) {
    s.ring == [] && s.writers == map[] && s.accepted == [] && s.taken == []
  }

  /** All accepted bytes in order, and those of one call. */
  function Stream(cs: seq<Chunk>): (bytes: seq<byte>) {
    if cs == [] then [] else Stream(cs[..|cs| - 1]) + cs[|cs| - 1].bytes
  }

  function Own(cs: seq<Chunk>, w: nat): (own: seq<Chunk>) {
    if cs == [] then [] else Own(cs[..|cs| - 1], w) + (if cs[|cs| - 1].writer == w then [cs[|cs| - 1]] else [])
  }

  lemma Append(cs: seq<Chunk>, c: Chunk, w: nat)
    ensures Stream(cs + [c]) == Stream(cs) + c.bytes
    ensures Own(cs + [c], w) == Own(cs, w) + (if c.writer == w then [c] else [])
  {
    assert (cs + [c])[..|cs|] == cs;
  }

  // ----- The invariant

  /** Bytes read followed by bytes in the ring are the bytes accepted. */
  ghost predicate StreamOk(s: State) {
    |s.ring| <= CAPACITY && s.taken + s.ring == Stream(s.accepted)
  }

  /** The bytes accepted from a call are a prefix of its buffer; of a small write, or one that does
      not block, they are one chunk. */
  ghost predicate CallOk(c: Writer, own: seq<Chunk>, w: nat) {
    && c.done <= |c.data| && c.data != [] && Stream(own) == c.data[..c.done]
    && (c.status.Active? ==> c.done < |c.data|)
    && (c.nonblock || |c.data| <= ATOMIC ==> if c.done == 0 then own == [] else own == [Chunk(w, c.data[..c.done])])
    && (c.nonblock || |c.data| <= ATOMIC ==> c.status.Active? ==> c.done == 0)
    && (c.status.Returned? ==>
          c.status.count == c.done && 0 < c.done && (|c.data| <= ATOMIC || !c.nonblock ==> c.done == |c.data|))
    && (|c.data| <= ATOMIC && c.status.Failed? ==> c.done == 0)
  }

  ghost predicate WriterOk(s: State, w: nat)
    requires w in s.writers
  {
    CallOk(s.writers[w], Own(s.accepted, w), w)
  }

  ghost predicate WritersOk(s: State) {
    && (forall w :: w in s.writers ==> WriterOk(s, w))
    && (forall w: nat :: w !in s.writers ==> Own(s.accepted, w) == [])
  }

  ghost predicate Inv(s: State) {
    StreamOk(s) && WritersOk(s)
  }

  lemma ReadKeeps(s: State, s': State, size: nat)
    requires Inv(s) && Read(s, s', size)
    ensures Inv(s')
  {
    var n := Min(size, |s.ring|);
    assert s.taken + s.ring[..n] + s.ring[n..] == s.taken + s.ring;
    forall w | w in s.writers
      ensures WriterOk(s', w)
    {
      assert WriterOk(s, w);
    }
  }

  /** The bytes that a round takes. */
  ghost function Taken(s: State, w: nat): (bytes: seq<byte>)
    requires w in s.writers && |s.ring| <= CAPACITY && s.writers[w].done <= |s.writers[w].data|
    requires s.writers[w].done + Attempt(s.ring, s.readers, |s.writers[w].data|, s.writers[w].done,
                                         s.writers[w].nonblock).took <= |s.writers[w].data|
  {
    var c := s.writers[w];
    c.data[c.done..c.done + Attempt(s.ring, s.readers, |c.data|, c.done, c.nonblock).took]
  }

  lemma WriterKept(s: State, s': State, w: nat)
    requires WriteRound(s, s', w) && WriterOk(s, w)
    requires var bytes := Taken(s, w);
             Own(s'.accepted, w) == Own(s.accepted, w) + (if bytes == [] then [] else [Chunk(w, bytes)])
    ensures WriterOk(s', w)
  {
    hide Attempt, CallOk, Own;
    CallKept(s.writers[w], Own(s.accepted, w), w, s.ring, s.readers);
  }

  lemma CallKept(c: Writer, own: seq<Chunk>, w: nat, ring: seq<byte>, readers: nat)
    requires CallOk(c, own, w) && c.status.Active? && |ring| <= CAPACITY
    requires c.done + Attempt(ring, readers, |c.data|, c.done, c.nonblock).took <= |c.data|
    ensures var r := Attempt(ring, readers, |c.data|, c.done, c.nonblock);
            var bytes := c.data[c.done..c.done + r.took];
            CallOk(c.(done := c.done + r.took, status := StatusAfter(r.outcome)),
                   own + (if bytes == [] then [] else [Chunk(w, bytes)]), w)
  {
    hide Attempt, Stream, Own;
    var r := Attempt(ring, readers, |c.data|, c.done, c.nonblock);
    var bytes := c.data[c.done..c.done + r.took];
    AttemptExact(ring, readers, |c.data|, c.done, c.nonblock);
    if r.took != 0 {
      assert c.data[..c.done] + bytes == c.data[..c.done + r.took];
      Append(own, Chunk(w, bytes), w);
      assert c.done == 0 ==> bytes == c.data[..r.took];
    } else {
      assert bytes == [] && own + [] == own;
    }
  }

  lemma WriteKeeps(s: State, s': State, w: nat)
    requires Inv(s) && WriteRound(s, s', w)
    ensures Inv(s')
  {
    hide Attempt, CallOk, Own, Stream;
    RoundFits(s, w);
    WriteStream(s, s', w);
    forall v: nat
      ensures Own(s'.accepted, v)
           == Own(s.accepted, v) + (if Taken(s, w) == [] || v != w then [] else [Chunk(w, Taken(s, w))])
    {
      WriteOwn(s, s', w, v);
    }
    hide WriteRound;
    WriterKept(s, s', w);
    forall v | v in s'.writers && v != w
      ensures WriterOk(s', v)
    {
      SameWriter(s, s', v);
    }
  }

  lemma WriteOwn(s: State, s': State, w: nat, v: nat)
    requires WriteRound(s, s', w)
    ensures Own(s'.accepted, v)
         == Own(s.accepted, v) + (if Taken(s, w) == [] || v != w then [] else [Chunk(w, Taken(s, w))])
  {
    hide Attempt, Own, Stream;
    if Taken(s, w) != [] { Append(s.accepted, Chunk(w, Taken(s, w)), v); }
  }

  lemma WriteStream(s: State, s': State, w: nat)
    requires StreamOk(s) && WriteRound(s, s', w) && |s'.ring| <= CAPACITY
    ensures StreamOk(s')
  {
    hide Attempt, Own, Stream;
    var bytes := Taken(s, w);
    if bytes != [] { Append(s.accepted, Chunk(w, bytes), w); }
    assert s.taken + (s.ring + bytes) == Stream(s.accepted) + bytes;
  }

  lemma RoundFits(s: State, w: nat)
    requires StreamOk(s) && w in s.writers && WriterOk(s, w) && s.writers[w].status.Active?
    ensures |s.ring| + Attempt(s.ring, s.readers, |s.writers[w].data|, s.writers[w].done,
                               s.writers[w].nonblock).took <= CAPACITY
  {
    var c := s.writers[w];
    AttemptExact(s.ring, s.readers, |c.data|, c.done, c.nonblock);
  }

  lemma SameWriter(s: State, s': State, v: nat)
    requires v in s.writers && v in s'.writers && s'.writers[v] == s.writers[v]
    requires Own(s'.accepted, v) == Own(s.accepted, v) && WriterOk(s, v)
    ensures WriterOk(s', v)
  {}

  lemma StartKeeps(s: State, s': State, w: nat, data: seq<byte>, nonblock: bool)
    requires Inv(s) && StartWrite(s, s', w, data, nonblock)
    ensures Inv(s')
  {
    forall v | v in s.writers
      ensures WriterOk(s', v)
    {
      assert WriterOk(s, v);
    }
  }

  lemma InterruptKeeps(s: State, s': State, w: nat)
    requires Inv(s) && InterruptWrite(s, s', w)
    ensures Inv(s')
  {
    forall v | v in s.writers
      ensures WriterOk(s', v)
    {
      assert WriterOk(s, v);
    }
  }

  lemma NextKeeps(s: State, s': State, step: Step)
    requires Inv(s) && Next(s, s', step)
    ensures Inv(s')
  {
    hide StreamOk, CallOk, StartWrite, WriteRound, InterruptWrite, Read;
    match step
    case StartStep(w, data, nonblock) => StartKeeps(s, s', w, data, nonblock);
    case WriteStep(w) => WriteKeeps(s, s', w);
    case InterruptStep(w) => InterruptKeeps(s, s', w);
    case ReadStep(size) => ReadKeeps(s, s', size);
    case ReadersStep(readers) => ReadersKeeps(s, s', readers);
  }

  lemma ReadersKeeps(s: State, s': State, readers: nat)
    requires Inv(s) && SetReaders(s, s', readers)
    ensures Inv(s')
  {
    forall v | v in s.writers
      ensures WriterOk(s', v)
    {
      assert WriterOk(s, v);
    }
  }

  ghost predicate IsRun(run: seq<State>, steps: seq<Step>) {
    && |run| == |steps| + 1 && Init(run[0])
    && forall k :: 0 <= k < |steps| ==> Next(run[k], run[k + 1], steps[k])
  }

  lemma {:induction false} RunInv(run: seq<State>, steps: seq<Step>, k: nat)
    requires IsRun(run, steps) && k < |run|
    ensures Inv(run[k])
  {
    hide Next, CallOk;
    if k > 0 {
      RunInv(run, steps, k - 1);
      NextKeeps(run[k - 1], run[k], steps[k - 1]);
    }
  }

  /** In every run the bytes read, followed by the bytes in the ring, are all accepted chunks in
      order. */
  lemma StreamIntegrity(run: seq<State>, steps: seq<Step>, k: nat)
    requires IsRun(run, steps) && k < |run|
    ensures run[k].taken + run[k].ring == Stream(run[k].accepted) && |run[k].ring| <= CAPACITY
    ensures run[k].taken <= Stream(run[k].accepted)
  {
    RunInv(run, steps, k);
  }

  /** A successful write of at most 4096 bytes is one chunk with all its bytes, and one that does not
      succeed leaves nothing. */
  lemma SmallWriteAtomic(run: seq<State>, steps: seq<Step>, k: nat, w: nat)
    requires IsRun(run, steps) && k < |run| && w in run[k].writers && |run[k].writers[w].data| <= ATOMIC
    ensures var c := run[k].writers[w];
            if c.status.Returned? then c.status.count == |c.data| && Own(run[k].accepted, w) == [Chunk(w, c.data)]
            else Own(run[k].accepted, w) == []
  {
    RunInv(run, steps, k);
    assert WriterOk(run[k], w);
    var c := run[k].writers[w];
    assert c.data[..|c.data|] == c.data;
  }

  /** A successful blocking write of any size is delivered whole and in order, and a write that does
      not block delivers the prefix that it reports as one chunk. */
  lemma LargeWriteDelivered(run: seq<State>, steps: seq<Step>, k: nat, w: nat)
    requires IsRun(run, steps) && k < |run| && w in run[k].writers && run[k].writers[w].status.Returned?
    ensures var c := run[k].writers[w];
            && (!c.nonblock ==> Stream(Own(run[k].accepted, w)) == c.data && c.status.count == |c.data|)
            && (c.nonblock ==>
                  c.status.count <= |c.data| && Own(run[k].accepted, w) == [Chunk(w, c.data[..c.status.count])])
  {
    RunInv(run, steps, k);
    assert WriterOk(run[k], w);
    var c := run[k].writers[w];
    assert c.data[..|c.data|] == c.data;
  }

  /** The assertions on written counts hold in every round of a run. */
  lemma AssertionsHold(run: seq<State>, steps: seq<Step>, k: nat, w: nat)
    requires IsRun(run, steps) && k < |run| && w in run[k].writers && run[k].writers[w].status.Active?
    ensures var c := run[k].writers[w];
            && |run[k].ring| <= CAPACITY && c.done <= |c.data|
            && !Attempt(run[k].ring, run[k].readers, |c.data|, c.done, c.nonblock).outcome.AssertFailed?
  {
    RunInv(run, steps, k);
    assert WriterOk(run[k], w);
    var c := run[k].writers[w];
    AttemptExact(run[k].ring, run[k].readers, |c.data|, c.done, c.nonblock);
  }
}
