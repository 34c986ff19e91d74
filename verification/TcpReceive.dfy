/**
 The receive side of kernel-src/io/net/tcp.c: tcp_queuereceivepacket with its out-of-order
 queue. The specification functions make the same comparisons as the source on wrapped 32-bit
 numbers; the lemmas show what they amount to while neither the window nor a segment crosses
 2^32.
 */
module TcpReceive {
  import opened Arith
  import opened Common
  import opened RingBuffers
  import opened TcpSequence

  /** Capacity of the receive and transmit rings. */
  const RING_SIZE: nat := 0xffff

  datatype Segment = Segment(seqn: u32, data: seq<byte>) {
    /** The sequence number after the last byte, as the source computes it. */
    function End(): (e: u32) { Add(seqn, |data|) }
  }

  /** Receive state: next byte expected, window, bytes for the user, queued segments. */
  datatype Receiver = Receiver(next: u32, window: int, buffer: seq<byte>, queue: seq<Segment>)

  /** The test that makes a new segment evict a queued one. */
  predicate Conflicts(queued: Segment, s: Segment) {
    || SeqInRange(s.seqn, s.End(), queued.seqn, queued.End())
    || SeqInRange(queued.seqn, Add(queued.seqn, 1), s.seqn, s.End())
    || SeqInRange(Add(queued.End(), MODULUS - 1), queued.End(), s.seqn, s.End())
  }

  function Kept(queue: seq<Segment>, s: Segment): (kept: seq<Segment>) {
    if queue == [] then []
    else (if Conflicts(queue[0], s) then [] else [queue[0]]) + Kept(queue[1..], s)
  }

  /** Moves queued segments that have become next into the buffer. */
  function Flushed(next: u32, buffer: seq<byte>, queue: seq<Segment>): (r: (u32, seq<byte>, seq<Segment>))
    decreases |queue|
  {
    if queue == [] || queue[0].seqn != next then (next, buffer, queue)
    else Flushed(queue[0].End(), buffer + queue[0].data, queue[1..])
  }

  /** The place of a new segment: before the first queued one whose preceding gap contains it. */
  function Place(from: u32, queue: seq<Segment>, s: Segment): (i: nat)
    ensures i <= |queue|
    decreases |queue|
  {
    if queue == [] || SeqInRange(s.seqn, s.End(), from, queue[0].seqn) then 0
    else 1 + Place(queue[0].End(), queue[1..], s)
  }

  function Inserted(queue: seq<Segment>, i: nat, s: Segment): (q: seq<Segment>)
    requires i <= |queue|
  {
    queue[..i] + [s] + queue[i..]
  }

  /** A segment that carries data, fits the window and passes the range test. */
  predicate Acceptable(r: Receiver, s: Segment) {
    && 0 < |s.data| <= r.window
    && SeqInRange(s.seqn, s.End(), r.next, Add(r.next, r.window))
  }

  /** The effect of tcp_queuereceivepacket; canQueue is the outcome of its allocation. */
  function Received(r: Receiver, s: Segment, canQueue: bool): (r': Receiver) {
    if !Acceptable(r, s) then r else
    var kept := Kept(r.queue, s);
    if s.seqn == r.next then
      var (next, buffer, queue) := Flushed(s.End(), r.buffer + s.data, kept);
      Receiver(next, r.window - (|buffer| - |r.buffer|), buffer, queue)
    else if !canQueue then r.(queue := kept)
    else r.(queue := Inserted(kept, Place(r.next, kept, s), s))
  }

  // ----- What the comparisons mean while nothing crosses 2^32

  /** A segment with data that does not cross 2^32. */
  predicate Fits(s: Segment) {
    0 < |s.data| && s.seqn + |s.data| < MODULUS
  }

  function Limit(s: Segment): (n: int) {
    s.seqn + |s.data|
  }

  lemma EndIsLimit(s: Segment)
    requires Fits(s)
    ensures s.End() == Limit(s)
  {}

  predicate Overlap(a: Segment, b: Segment) {
    a.seqn < Limit(b) && b.seqn < Limit(a)
  }

  /** Segments in order, pairwise disjoint, inside [lo, hi]. */
  ghost predicate Chain(lo: int, queue: seq<Segment>, hi: int)
    decreases |queue|
  {
    if queue == [] then lo <= hi
    else lo <= queue[0].seqn && Fits(queue[0]) && Chain(Limit(queue[0]), queue[1..], hi)
  }

  ghost predicate Apart(queue: seq<Segment>, s: Segment) {
    forall i :: 0 <= i < |queue| ==> !Overlap(queue[i], s)
  }

  /** The receive invariant: the queue is in order, disjoint, strictly beyond the next expected
      byte and inside the window; what is buffered and what may still come fit the ring. */
  ghost predicate Ok(r: Receiver) {
    && 0 <= r.window && r.next + r.window < MODULUS
    && |r.buffer| + r.window <= RING_SIZE
    && Beyond(r.next, r.queue, r.next + r.window)
  }

  ghost predicate Beyond(next: int, queue: seq<Segment>, hi: int) {
    queue != [] ==> Chain(next + 1, queue, hi)
  }

  lemma ConflictsIsOverlap(queued: Segment, s: Segment)
    requires Fits(queued) && Fits(s)
    ensures Conflicts(queued, s) <==> Overlap(queued, s)
  {
  }

  lemma {:induction false} ChainBounds(lo: int, queue: seq<Segment>, hi: int)
    requires Chain(lo, queue, hi)
    ensures lo <= hi
    ensures forall i :: 0 <= i < |queue| ==> Fits(queue[i]) && lo <= queue[i].seqn && Limit(queue[i]) <= hi
    ensures forall i, j :: 0 <= i < j < |queue| ==> Limit(queue[i]) <= queue[j].seqn
    decreases |queue|
  {
    if queue != [] {
      ChainBounds(Limit(queue[0]), queue[1..], hi);
      forall i | 0 < i < |queue|
        ensures Fits(queue[i]) && Limit(queue[0]) <= queue[i].seqn && Limit(queue[i]) <= hi
      {
        assert queue[i] == queue[1..][i - 1];
      }
      forall i, j | 0 <= i < j < |queue|
        ensures Limit(queue[i]) <= queue[j].seqn
      {
        if 0 < i { assert queue[i] == queue[1..][i - 1] && queue[j] == queue[1..][j - 1]; }
      }
    }
  }

  lemma ChainFrom(lo: int, lo': int, queue: seq<Segment>, hi: int)
    requires Chain(lo, queue, hi) && lo' <= hi && (queue != [] ==> lo' <= queue[0].seqn)
    ensures Chain(lo', queue, hi)
  {
  }

  lemma {:induction false} KeptChain(lo: int, queue: seq<Segment>, hi: int, s: Segment)
    requires Chain(lo, queue, hi) && Fits(s)
    ensures Chain(lo, Kept(queue, s), hi) && Apart(Kept(queue, s), s)
    decreases |queue|
  {
    if queue != [] {
      var rest := Kept(queue[1..], s);
      KeptChain(Limit(queue[0]), queue[1..], hi, s);
      ConflictsIsOverlap(queue[0], s);
      if Conflicts(queue[0], s) {
        ChainBounds(Limit(queue[0]), rest, hi);
        ChainFrom(Limit(queue[0]), lo, rest, hi);
        assert Kept(queue, s) == rest;
      } else {
        assert Kept(queue, s)[1..] == rest;
      }
    }
  }

  lemma {:induction false} FlushedChain(next: u32, buffer: seq<byte>, queue: seq<Segment>, hi: int)
    requires Chain(next, queue, hi) && hi < MODULUS
    ensures var (next', buffer', queue') := Flushed(next, buffer, queue);
            && next <= next' <= hi && |buffer'| == |buffer| + (next' - next)
            && Beyond(next', queue', hi)
    decreases |queue|
  {
    if queue != [] && queue[0].seqn == next {
      ChainBounds(next, queue, hi);
      EndIsLimit(queue[0]);
      FlushedChain(queue[0].End(), buffer + queue[0].data, queue[1..], hi);
    } else if queue != [] {
      ChainBounds(next, queue, hi);
      ChainFrom(next, next + 1, queue, hi);
    }
  }

  lemma {:induction false} PlacedChain(from: u32, queue: seq<Segment>, s: Segment, hi: int)
    requires Chain(from, queue, hi) && Fits(s) && Apart(queue, s) && from <= s.seqn && Limit(s) <= hi < MODULUS
    ensures Chain(from, Inserted(queue, Place(from, queue, s), s), hi)
    decreases |queue|
  {
    var i := Place(from, queue, s);
    var q := Inserted(queue, i, s);
    if i == 0 {
      assert q[1..] == queue;
      if queue != [] {
        ChainFrom(from, Limit(s), queue, hi);
      }
    } else {
      assert !Overlap(queue[0], s);
      forall k | 0 <= k < |queue[1..]| ensures !Overlap(queue[1..][k], s) { assert queue[1..][k] == queue[k + 1]; }
      PlacedChain(queue[0].End(), queue[1..], s, hi);
      assert q[0] == queue[0] && q[1..] == Inserted(queue[1..], i - 1, s);
    }
  }

  /** Every segment keeps the receive invariant, and with it the three assertions of the source:
      both ring writes fit and no more is written than the window allows. Buffered bytes plus
      window, and the end of the window, never change. */
  lemma ReceivedOk(r: Receiver, s: Segment, canQueue: bool)
    requires Ok(r) && (0 < |s.data| ==> Fits(s))
    ensures var r' := Received(r, s, canQueue);
            && Ok(r') && r.next <= r'.next
            && |r'.buffer| + r'.window == |r.buffer| + r.window
            && r'.next + r'.window == r.next + r.window
  {
    if Acceptable(r, s) {
      var hi, kept := r.next + r.window, Kept(r.queue, s);
      AcceptableInside(r, s);
      KeptBeyond(r.next, r.queue, hi, s);
      if s.seqn == r.next {
        EndIsLimit(s);
        FlushedChain(s.End(), r.buffer + s.data, kept, hi);
      } else if canQueue {
        QueuedBeyond(r.next, kept, s, hi);
      }
    }
  }

  lemma {:induction false} FlushedGrows(next: u32, buffer: seq<byte>, queue: seq<Segment>)
    ensures buffer <= Flushed(next, buffer, queue).1
    decreases |queue|
  {
    if queue != [] && queue[0].seqn == next {
      FlushedGrows(queue[0].End(), buffer + queue[0].data, queue[1..]);
    }
  }

  /** Bytes are only ever added behind the buffered ones, and the window gives way to them. */
  lemma ReceivedGrows(r: Receiver, s: Segment, canQueue: bool)
    requires Ok(r) && (s.data != [] ==> Fits(s))
    ensures var r' := Received(r, s, canQueue);
            Ok(r') && r.buffer <= r'.buffer && r'.next + r'.window == r.next + r.window
  {
    ReceivedOk(r, s, canQueue);
    FlushedGrows(s.End(), r.buffer + s.data, Kept(r.queue, s));
  }

  /** Within the bounds of the invariant, an acceptable segment lies inside the window. */
  lemma AcceptableInside(r: Receiver, s: Segment)
    requires Ok(r) && Fits(s)
    ensures Acceptable(r, s) <==> r.next <= s.seqn && Limit(s) <= r.next + r.window
  {
  }

  lemma QueuedBeyond(next: u32, kept: seq<Segment>, s: Segment, hi: int)
    requires Beyond(next, kept, hi) && Chain(next, kept, hi) && Apart(kept, s)
    requires Fits(s) && next < s.seqn && Limit(s) <= hi < MODULUS
    ensures Beyond(next, Inserted(kept, Place(next, kept, s), s), hi)
  {
    var q := Inserted(kept, Place(next, kept, s), s);
    PlacedChain(next, kept, s, hi);
    assert q[0] == s || (kept != [] && q[0] == kept[0]);
    ChainFrom(next, next + 1, q, hi);
  }

  lemma {:induction false} ChainWiden(lo: int, queue: seq<Segment>, hi: int, hi': int)
    requires Chain(lo, queue, hi) && hi <= hi'
    ensures Chain(lo, queue, hi')
    decreases |queue|
  {
    if queue != [] { ChainWiden(Limit(queue[0]), queue[1..], hi, hi'); }
  }

  /** Reading n buffered bytes opens the window by as much. */
  lemma ReadOk(r: Receiver, n: nat)
    requires Ok(r) && n <= |r.buffer| && r.next + RING_SIZE < MODULUS
    ensures var r' := r.(buffer := r.buffer[n..], window := r.window + n);
            Ok(r') && |r'.buffer| + r'.window == |r.buffer| + r.window
  {
    if r.queue != [] {
      ChainWiden(r.next + 1, r.queue, r.next + r.window, r.next + r.window + n);
    }
  }

  /** What stays queued is apart from the new segment, and after it if it is the next one. */
  lemma KeptBeyond(next: u32, queue: seq<Segment>, hi: int, s: Segment)
    requires Beyond(next, queue, hi) && Fits(s) && next <= s.seqn && Limit(s) <= hi
    ensures Beyond(next, Kept(queue, s), hi) && Apart(Kept(queue, s), s) && Chain(next, Kept(queue, s), hi)
    ensures s.seqn == next ==> Chain(Limit(s), Kept(queue, s), hi)
  {
    var kept := Kept(queue, s);
    if queue != [] {
      KeptChain(next + 1, queue, hi, s);
      ChainBounds(next + 1, kept, hi);
      ChainFrom(next + 1, next, kept, hi);
      if s.seqn == next {
        assert kept != [] ==> !Overlap(kept[0], s);
        ChainFrom(next + 1, Limit(s), kept, hi);
      }
    }
  }

  // ----- The queue as a map from sequence numbers to bytes

  function ByteAt(s: Segment, n: int): (b: byte)
    requires s.seqn <= n < Limit(s)
  {
    s.data[n - s.seqn]
  }

  ghost function Bytes(s: Segment): (m: map<int, byte>) {
    map n | s.seqn <= n < Limit(s) :: ByteAt(s, n)
  }

  ghost function Held(queue: seq<Segment>): (m: map<int, byte>) {
    if queue == [] then map[] else Bytes(queue[0]) + Held(queue[1..])
  }

  /** The bytes at hand when a segment has been accepted: those of the queued segments it does
      not overlap, and its own. */
  ghost function AtHand(r: Receiver, s: Segment): (m: map<int, byte>) {
    Held(Kept(r.queue, s)) + Bytes(s)
  }

  lemma {:induction false} HeldBounds(lo: int, queue: seq<Segment>, hi: int)
    requires Chain(lo, queue, hi)
    ensures forall n :: n in Held(queue) ==> lo <= n < hi
    decreases |queue|
  {
    if queue != [] {
      ChainBounds(lo, queue, hi);
      HeldBounds(Limit(queue[0]), queue[1..], hi);
    }
  }

  lemma RestAfter(s: Segment, m: map<int, byte>, n0: int)
    requires Limit(s) <= n0 && forall n :: n in m ==> Limit(s) <= n
    ensures n0 !in m ==> n0 !in Bytes(s) + m
    ensures (map n | n in Bytes(s) + m && n0 <= n :: (Bytes(s) + m)[n]) == (map n | n in m && n0 <= n :: m[n])
    ensures Bytes(s) + m == m + Bytes(s)
  {
    assert Bytes(s) + m == m + Bytes(s);
  }

  /** Flushing stops at the first missing byte and keeps what lies beyond it. */
  lemma {:induction false} FlushedRest(next: u32, buffer: seq<byte>, queue: seq<Segment>, hi: int)
    requires Chain(next, queue, hi) && hi < MODULUS
    ensures var (next', buffer', queue') := Flushed(next, buffer, queue);
            && next <= next' && next' !in Held(queue)
            && Held(queue') == map n | n in Held(queue) && next' <= n :: Held(queue)[n]
    decreases |queue|
  {
    ChainBounds(next, queue, hi);
    if queue != [] && queue[0].seqn == next {
      EndIsLimit(queue[0]);
      HeldBounds(Limit(queue[0]), queue[1..], hi);
      FlushedRest(queue[0].End(), buffer + queue[0].data, queue[1..], hi);
      RestAfter(queue[0], Held(queue[1..]), Flushed(next, buffer, queue).0);
    } else if queue != [] {
      ChainFrom(next, next + 1, queue, hi);
      HeldBounds(next + 1, queue, hi);
    }
  }

  /** From index at on, the buffer holds the bytes numbered lo to hi. */
  ghost predicate Run(buffer: seq<byte>, at: nat, m: map<int, byte>, lo: int, hi: int) {
    && lo <= hi && |buffer| == at + (hi - lo)
    && forall i :: at <= i < |buffer| ==> Numbered(buffer, at, m, lo, i)
  }

  /** If index at holds byte number lo, then index i holds the byte it should. */
  ghost predicate Numbered(buffer: seq<byte>, at: nat, m: map<int, byte>, lo: int, i: nat)
    requires at <= i < |buffer|
  {
    lo + (i - at) in m && buffer[i] == m[lo + (i - at)]
  }

  /** Flushing delivers the run of bytes from next on. */
  lemma {:induction false} FlushedRun(next: u32, buffer: seq<byte>, queue: seq<Segment>, hi: int)
    requires Chain(next, queue, hi) && hi < MODULUS
    ensures var (next', buffer', queue') := Flushed(next, buffer, queue);
            && Run(buffer', |buffer|, Held(queue), next, next') && buffer <= buffer'
    decreases |queue|
  {
    if queue != [] && queue[0].seqn == next {
      ChainBounds(next, queue, hi);
      var head, rest := queue[0], queue[1..];
      EndIsLimit(head);
      var buffer1 := buffer + head.data;
      FlushedRun(head.End(), buffer1, rest, hi);
      var (next', buffer', queue') := Flushed(next, buffer, queue);
      HeldBounds(Limit(head), rest, hi);
      RunExtends(buffer, head, buffer', Held(rest), next');
    }
  }

  /** The bytes of a segment followed by a run of later bytes. */
  lemma RunExtends(buffer: seq<byte>, s: Segment, buffer': seq<byte>, m: map<int, byte>, hi: int)
    requires buffer + s.data <= buffer' && Run(buffer', |buffer| + |s.data|, m, Limit(s), hi)
    requires forall n :: n in m ==> Limit(s) <= n
    ensures Run(buffer', |buffer|, Bytes(s) + m, s.seqn, hi) && Run(buffer', |buffer|, m + Bytes(s), s.seqn, hi)
    ensures buffer <= buffer'
  {
    var both := Bytes(s) + m;
    forall i | |buffer| <= i < |buffer'|
      ensures Numbered(buffer', |buffer|, both, s.seqn, i)
    {
      var n := s.seqn + (i - |buffer|);
      if i < |buffer| + |s.data| {
        assert buffer'[i] == (buffer + s.data)[i] == ByteAt(s, n);
      } else {
        assert Numbered(buffer', |buffer| + |s.data|, m, Limit(s), i);
      }
    }
    assert both == m + Bytes(s);
  }

  lemma MergeAssociates(a: map<int, byte>, b: map<int, byte>, c: map<int, byte>)
    ensures a + (b + c) == (a + b) + c
  {}

  lemma {:induction false} InsertedHeld(lo: int, queue: seq<Segment>, i: nat, s: Segment, hi: int)
    requires i <= |queue| && Chain(lo, queue, hi) && Apart(queue, s) && Fits(s)
    ensures Held(Inserted(queue, i, s)) == Held(queue) + Bytes(s)
    decreases |queue|
  {
    var q := Inserted(queue, i, s);
    ApartHeld(lo, queue, s, hi);
    if i == 0 {
      assert q[0] == s && q[1..] == queue;
    } else {
      var head, rest := queue[0], queue[1..];
      assert !Overlap(head, s);
      forall k | 0 <= k < |rest| ensures !Overlap(rest[k], s) { assert rest[k] == queue[k + 1]; }
      assert q[0] == head && q[1..] == Inserted(rest, i - 1, s);
      InsertedHeld(Limit(head), rest, i - 1, s, hi);
      MergeAssociates(Bytes(head), Held(rest), Bytes(s));
    }
  }

  lemma {:induction false} ApartHeld(lo: int, queue: seq<Segment>, s: Segment, hi: int)
    requires Chain(lo, queue, hi) && Apart(queue, s) && Fits(s)
    ensures forall n :: n in Held(queue) ==> !(s.seqn <= n < Limit(s))
    decreases |queue|
  {
    if queue != [] {
      assert !Overlap(queue[0], s);
      forall k | 0 <= k < |queue[1..]| ensures !Overlap(queue[1..][k], s) { assert queue[1..][k] == queue[k + 1]; }
      ApartHeld(Limit(queue[0]), queue[1..], s, hi);
    }
  }

  /** Reassembly as a whole: an accepted segment moves the next expected number to the first
      number that is not at hand, delivers the bytes in between in order, and keeps the rest. */
  lemma ReceivedIsFirstMissing(r: Receiver, s: Segment)
    requires Ok(r) && Fits(s) && Acceptable(r, s)
    ensures var r', m := Received(r, s, true), AtHand(r, s);
            && r.next <= r'.next && r'.next !in m
            && r.buffer <= r'.buffer && Run(r'.buffer, |r.buffer|, m, r.next, r'.next)
            && Held(r'.queue) == map n | n in m && r'.next <= n :: m[n]
  {
    if s.seqn == r.next {
      NextRest(r, s);
      NextRun(r, s);
    } else {
      OtherQueued(r, s);
    }
  }

  /** Where a segment that is the next one leaves the receiver. */
  lemma NextRest(r: Receiver, s: Segment)
    requires Ok(r) && Fits(s) && Acceptable(r, s) && s.seqn == r.next
    ensures var r', m := Received(r, s, true), AtHand(r, s);
            && r.next <= r'.next && r'.next !in m
            && Held(r'.queue) == map n | n in m && r'.next <= n :: m[n]
  {
    var hi, kept := r.next + r.window, Kept(r.queue, s);
    EndIsLimit(s);
    AcceptableInside(r, s);
    KeptBeyond(r.next, r.queue, hi, s);
    HeldBounds(Limit(s), kept, hi);
    FlushedRest(s.End(), r.buffer + s.data, kept, hi);
    RestAfter(s, Held(kept), Flushed(s.End(), r.buffer + s.data, kept).0);
  }

  /** What it delivers. */
  lemma NextRun(r: Receiver, s: Segment)
    requires Ok(r) && Fits(s) && Acceptable(r, s) && s.seqn == r.next
    ensures var r' := Received(r, s, true);
            r.buffer <= r'.buffer && Run(r'.buffer, |r.buffer|, AtHand(r, s), r.next, r'.next)
  {
    var hi, kept := r.next + r.window, Kept(r.queue, s);
    EndIsLimit(s);
    AcceptableInside(r, s);
    KeptBeyond(r.next, r.queue, hi, s);
    HeldBounds(Limit(s), kept, hi);
    FlushedRun(s.End(), r.buffer + s.data, kept, hi);
    var (next', buffer', queue') := Flushed(s.End(), r.buffer + s.data, kept);
    RunExtends(r.buffer, s, buffer', Held(kept), next');
  }

  lemma OtherQueued(r: Receiver, s: Segment)
    requires Ok(r) && Fits(s) && Acceptable(r, s) && s.seqn != r.next
    ensures var r', m := Received(r, s, true), AtHand(r, s);
            && r'.next == r.next && r.next !in m && r'.buffer == r.buffer && Held(r'.queue) == m
            && forall n :: n in m ==> r.next <= n
  {
    var hi, kept := r.next + r.window, Kept(r.queue, s);
    AcceptableInside(r, s);
    KeptBeyond(r.next, r.queue, hi, s);
    InsertedHeld(r.next, kept, Place(r.next, kept, s), s, hi);
    if kept != [] { HeldBounds(r.next + 1, kept, hi); }
  }
}
