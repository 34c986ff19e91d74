/**
 Two established endpoints over a network that loses, duplicates and reorders packets. In every
 run the receive ring holds exactly the next part of what the other side wrote, and the sender
 keeps exactly what is not acknowledged. What a read hands out goes through the segments of the
 reader's iovec: it is the prefix of what was written in every run whose reads fit the ring, and
 for every read that does not fit there is a run that breaks the prefix.
 The connection stays before FIN and RST, and no stream reaches 2^32 (RFC 9293, section 3.4).
 */
module TcpConnection {
  import opened Arith
  import opened Common
  import opened RingBuffers
  import opened Iovecs
  import opened TcpSequence
  import opened TcpReceive
  import opened TcpEndpoint

  /** One direction's stream: the number of its first byte, the bytes accepted by send, and the
      bytes handed out by recv. */
  datatype Stream = Stream(base: nat, written: seq<byte>, read: seq<byte>)

  /** An endpoint, the stream it sends and the packets on their way from it. */
  datatype Side = Side(end: Endpoint, out: Stream, net: set<Packet>)

  datatype System = System(a: Side, b: Side)

  function ToSet(ps: seq<Packet>): (s: set<Packet>) {
    set p | p in ps
  }

  // ----- Steps. Each is given for side a; the mirror image is the step of side b.

  /** Data that a transfer from a cursor takes from the concatenated segments of the caller. */
  ghost predicate TakenFrom(data: seq<byte>, bytes: seq<byte>, lens: seq<nat>, at: Cursor)
    requires CursorOk(lens, at)
  {
    var from := Sum(lens, at.current) + at.offset;
    from + |data| <= |bytes| && data == bytes[from..from + |data|]
  }

  /** tcp_send past its count assertion. */
  ghost predicate SendStep(s: System, s': System, bytes: seq<byte>, lens: seq<nat>, at: Cursor, count: nat,
                           data: seq<byte>) {
    && CursorOk(lens, at) && |bytes| == Sum(lens, |lens|) && TakenFrom(data, bytes, lens, at)
    && 0 < |data| == WriteSize(s.a.end, count) <= Reach(lens, at.current, at.offset)
    && var (e, out) := Sent(s.a.end, data);
       s' == s.(a := Side(e, s.a.out.(written := s.a.out.written + data), s.a.net + ToSet(out)))
  }

  /** The timer fires: the retransmit buffer goes out once more. */
  ghost predicate RetransmitStep(s: System, s': System) {
    s' == s.(a := s.a.(net := s.a.net + ToSet(InFlight(s.a.end))))
  }

  ghost predicate LoseStep(s: System, s': System, p: Packet) {
    s' == s.(a := s.a.(net := s.a.net - {p}))
  }

  /** Side a handles any packet under way from b, which stays under way: it may come again. */
  ghost predicate DeliverStep(s: System, s': System, p: Packet, canQueue: bool) {
    && p in s.b.net
    && var (e, out) := Delivered(s.a.end, p, canQueue);
       s' == s.(a := s.a.(end := e, net := s.a.net + ToSet(out)))
  }

  /** tcp_recv past its count assertion. */
  ghost predicate RecvStep(s: System, s': System, lens: seq<nat>, at: Cursor, count: nat, data: seq<byte>) {
    && |s.a.end.rcv.buffer| <= RING_SIZE && CursorOk(lens, at) && |data| == CopyCount(s.a.end, count)
    && IsScattered(data, s.a.end.rcv.buffer, RING_SIZE - |s.a.end.rcv.buffer|, lens, at, |data|)
    && var (e, out) := Taken(s.a.end, |data|);
       s' == System(s.a.(end := e, net := s.a.net + ToSet(out)), s.b.(out := s.b.out.(read := s.b.out.read + data)))
  }

  datatype Move =
    | Send(bytes: seq<byte>, lens: seq<nat>, at: Cursor, count: nat, data: seq<byte>)
    | Retransmit
    | Lose(p: Packet)
    | Deliver(p: Packet, canQueue: bool)
    | Recv(lens: seq<nat>, at: Cursor, count: nat, data: seq<byte>)

  /** Whose move it is. */
  datatype Turn = Turn(byA: bool, move: Move)

  ghost predicate StepA(s: System, s': System, m: Move) {
    match m
    case Send(bytes, lens, at, count, data) => SendStep(s, s', bytes, lens, at, count, data)
    case Retransmit => RetransmitStep(s, s')
    case Lose(p) => LoseStep(s, s', p)
    case Deliver(p, canQueue) => DeliverStep(s, s', p, canQueue)
    case Recv(lens, at, count, data) => RecvStep(s, s', lens, at, count, data)
  }

  function Mirror(s: System): (m: System) {
    System(s.b, s.a)
  }

  ghost predicate Step(s: System, s': System, t: Turn) {
    if t.byA then StepA(s, s', t.move) else StepA(Mirror(s), Mirror(s'), t.move)
  }

  /** A read enters no segment beyond the free space of the receive ring. */
  ghost predicate Fitting(e: Endpoint, m: Move) {
    m.Recv? ==>
      && CursorOk(m.lens, m.at) && |e.rcv.buffer| <= RING_SIZE
      && StartsFit(m.lens, m.at.current, m.at.offset, CopyCount(e, m.count), RING_SIZE - |e.rcv.buffer|)
  }

  ghost predicate ReadFits(s: System, t: Turn) {
    Fitting(if t.byA then s.a.end else s.b.end, t.move)
  }

  /** A freshly established connection: nothing sent, nothing received. */
  ghost predicate FreshSide(x: Side, peer: Side) {
    && x.net == {} && x.out.written == x.out.read == []
    && x.end.transmit == [] && x.end.retransmit == None && 0 < x.end.mss
    && x.end.unack == x.end.sndnext == x.out.base
    && x.end.rcv.next == peer.out.base && x.end.rcv.buffer == [] && x.end.rcv.queue == []
    && 0 <= x.end.rcv.window <= RING_SIZE
  }

  ghost predicate Init(s: System) {
    FreshSide(s.a, s.b) && FreshSide(s.b, s.a)
  }

  /** No stream, with a full window after it, reaches 2^32. */
  ghost predicate Short(s: System) {
    && s.a.out.base + |s.a.out.written| + RING_SIZE < MODULUS
    && s.b.out.base + |s.b.out.written| + RING_SIZE < MODULUS
  }

  // ----- The invariant of one direction

  /** The bytes numbered from n on, as they were written. */
  ghost predicate Slice(st: Stream, n: int, data: seq<byte>) {
    && st.base <= n && n + |data| <= st.base + |st.written|
    && data == st.written[n - st.base..n - st.base + |data|]
  }

  /** The sender: ring and retransmit buffer hold exactly what is unsent and unacknowledged. */
  ghost predicate SenderOk(e: Endpoint, st: Stream) {
    && 0 < e.mss && st.base <= e.unack <= e.sndnext
    && e.sndnext + |e.transmit| == st.base + |st.written| && Slice(st, e.sndnext, e.transmit)
    && (e.unack < e.sndnext ==>
          && e.retransmit.Some? && e.retransmit.value.seqn == e.unack
          && e.unack + |e.retransmit.value.data| == e.sndnext)
    && (e.retransmit.Some? ==> DataOk(e.retransmit.value, e.sndnext, st))
  }

  /** A packet carries a slice of what has been sent. */
  ghost predicate DataOk(p: Packet, sndnext: int, st: Stream) {
    Slice(st, p.seqn, p.data) && p.seqn + |p.data| <= sndnext
  }

  /** The receiver: what is buffered is the stream from the last byte read to the next expected one;
      what is queued is a part of what has been sent. */
  ghost predicate ReceiverOk(r: Receiver, st: Stream, sent: int) {
    && Ok(r) && InOrder(r.next, r.buffer, st, sent) && AllSlices(r.queue, st, sent)
  }

  ghost predicate InOrder(next: int, buffer: seq<byte>, st: Stream, sent: int) {
    && st.base + |st.read| <= next <= sent <= st.base + |st.written|
    && buffer == st.written[|st.read|..next - st.base]
  }

  ghost predicate AllSlices(queue: seq<Segment>, st: Stream, sent: int) {
    forall i :: 0 <= i < |queue| ==> Slice(st, queue[i].seqn, queue[i].data) && Limit(queue[i]) <= sent
  }

  /** What has been sent from x, and acknowledged to x. */
  ghost predicate PacketsOk(net: set<Packet>, sndnext: int, st: Stream) {
    forall p :: p in net ==> DataOk(p, sndnext, st)
  }

  ghost predicate AcksOk(net: set<Packet>, next: int) {
    forall p :: p in net ==> p.ack <= next
  }

  /** Direction x to y. */
  ghost predicate Half(x: Side, y: Side) {
    && SenderOk(x.end, x.out) && ReceiverOk(y.end.rcv, x.out, x.end.sndnext)
    && x.end.unack <= y.end.rcv.next
    && PacketsOk(x.net, x.end.sndnext, x.out)
    && AcksOk(y.net + ToSet(InFlight(y.end)), y.end.rcv.next)
  }

  ghost predicate Inv(s: System) {
    Half(s.a, s.b) && Half(s.b, s.a)
  }

  // ----- Streams only grow

  lemma SliceGrows(st: Stream, more: seq<byte>, n: int, data: seq<byte>)
    requires Slice(st, n, data)
    ensures Slice(st.(written := st.written + more), n, data)
  {
  }

  lemma ReceiverGrows(r: Receiver, st: Stream, more: seq<byte>, sent: int, sent': int)
    requires ReceiverOk(r, st, sent) && sent <= sent' <= st.base + |st.written| + |more|
    ensures ReceiverOk(r, st.(written := st.written + more), sent')
  {
    var st' := st.(written := st.written + more);
    forall i | 0 <= i < |r.queue|
      ensures Slice(st', r.queue[i].seqn, r.queue[i].data)
    {
      SliceGrows(st, more, r.queue[i].seqn, r.queue[i].data);
    }
    assert st'.written[|st.read|..r.next - st.base] == st.written[|st.read|..r.next - st.base];
  }

  lemma PacketsGrow(net: set<Packet>, sndnext: int, sndnext': int, st: Stream, more: seq<byte>)
    requires PacketsOk(net, sndnext, st) && sndnext <= sndnext'
    ensures PacketsOk(net, sndnext', st.(written := st.written + more))
  {
    forall p | p in net
      ensures DataOk(p, sndnext', st.(written := st.written + more))
    {
      SliceGrows(st, more, p.seqn, p.data);
    }
  }

  // ----- Receiving

  lemma {:induction false} KeptSlices(queue: seq<Segment>, s: Segment, st: Stream, sent: int)
    requires AllSlices(queue, st, sent)
    ensures AllSlices(Kept(queue, s), st, sent)
  {
    if queue != [] {
      assert AllSlices(queue[1..], st, sent);
      KeptSlices(queue[1..], s, st, sent);
    }
  }

  /** Appending the slice that comes next continues the stream. */
  lemma AppendSlice(next: int, buffer: seq<byte>, data: seq<byte>, st: Stream, sent: int)
    requires InOrder(next, buffer, st, sent) && Slice(st, next, data) && next + |data| <= sent
    ensures InOrder(next + |data|, buffer + data, st, sent)
  {
    var i := next - st.base;
    assert st.written[|st.read|..i + |data|] == st.written[|st.read|..i] + data;
  }

  lemma {:induction false} FlushedInOrder(next: u32, buffer: seq<byte>, queue: seq<Segment>, hi: int,
                                          st: Stream, sent: int)
    requires Chain(next, queue, hi) && hi < MODULUS
    requires InOrder(next, buffer, st, sent) && AllSlices(queue, st, sent)
    ensures var (next', buffer', queue') := Flushed(next, buffer, queue);
            InOrder(next', buffer', st, sent) && AllSlices(queue', st, sent)
    decreases |queue|
  {
    if queue != [] && queue[0].seqn == next {
      ChainBounds(next, queue, hi);
      AppendSlice(next, buffer, queue[0].data, st, sent);
      assert AllSlices(queue[1..], st, sent);
      FlushedInOrder(queue[0].End(), buffer + queue[0].data, queue[1..], hi, st, sent);
    }
  }

  /** Any segment that is a slice of the stream keeps the receiver on the stream: overlapping,
      repeated and out-of-order ones included. */
  lemma ReceivedInOrder(r: Receiver, s: Segment, canQueue: bool, st: Stream, sent: int)
    requires ReceiverOk(r, st, sent) && Slice(st, s.seqn, s.data) && Limit(s) <= sent < MODULUS
    ensures ReceiverOk(Received(r, s, canQueue), st, sent)
  {
    hide Slice, AllSlices, InOrder;
    ReceivedOk(r, s, canQueue);
    if Acceptable(r, s) {
      KeptSlices(r.queue, s, st, sent);
      if s.seqn == r.next {
        AcceptableInside(r, s);
        KeptBeyond(r.next, r.queue, r.next + r.window, s);
        NextInOrder(s, r.buffer, Kept(r.queue, s), r.next + r.window, st, sent);
      } else {
        var kept := Kept(r.queue, s);
        InsertedSlices(kept, Place(r.next, kept, s), s, st, sent);
      }
    }
  }

  lemma InsertedSlices(queue: seq<Segment>, i: nat, s: Segment, st: Stream, sent: int)
    requires i <= |queue| && AllSlices(queue, st, sent) && Slice(st, s.seqn, s.data) && Limit(s) <= sent
    ensures AllSlices(Inserted(queue, i, s), st, sent)
  {
  }

  lemma NextInOrder(s: Segment, buffer: seq<byte>, kept: seq<Segment>, hi: int, st: Stream, sent: int)
    requires Fits(s) && Chain(Limit(s), kept, hi) && hi < MODULUS
    requires InOrder(s.seqn, buffer, st, sent) && AllSlices(kept, st, sent)
    requires Slice(st, s.seqn, s.data) && Limit(s) <= sent
    ensures var (next, buffer, queue) := Flushed(s.End(), buffer + s.data, kept);
            InOrder(next, buffer, st, sent) && AllSlices(queue, st, sent)
  {
    EndIsLimit(s);
    AppendSlice(s.seqn, buffer, s.data, st, sent);
    FlushedInOrder(s.End(), buffer + s.data, kept, hi, st, sent);
  }

  // ----- Sending

  /** With nothing in flight, the next segment may overwrite the retransmit buffer. */
  lemma TransmittedOk(e: Endpoint, st: Stream)
    requires SenderOk(e, st) && e.unack == e.sndnext && e.transmit != [] && st.base + |st.written| < MODULUS
    ensures var e' := Transmitted(e);
            && SenderOk(e', st) && e.sndnext <= e'.sndnext && e'.unack == e.unack && e'.rcv == e.rcv
            && e'.retransmit.Some? && DataOk(e'.retransmit.value, e'.sndnext, st)
            && e'.retransmit.value.ack == e.rcv.next
  {
    var n := Min(e.mss, |e.transmit|);
    var i := e.sndnext - st.base;
    assert e.transmit == st.written[i..];
    assert e.transmit[..n] == st.written[i..i + n] && e.transmit[n..] == st.written[i + n..];
  }

  /** More bytes in the transmit ring. */
  lemma QueuedOk(e: Endpoint, st: Stream, more: seq<byte>)
    requires SenderOk(e, st)
    ensures SenderOk(e.(transmit := e.transmit + more), st.(written := st.written + more))
  {
    var st' := st.(written := st.written + more);
    var i := e.sndnext - st.base;
    assert e.transmit == st.written[i..];
    assert e.transmit + more == st'.written[i..];
    if e.retransmit.Some? {
      SliceGrows(st, more, e.retransmit.value.seqn, e.retransmit.value.data);
    }
  }

  // ----- Steps keep the invariant

  /** Handing the next segment to the network, once everything sent has arrived. */
  lemma TransmitHalf(x: Side, y: Side)
    requires Half(x, y) && x.end.unack == x.end.sndnext && x.end.transmit != []
    requires x.out.base + |x.out.written| < MODULUS
    ensures var e := Transmitted(x.end);
            Half(x.(end := e, net := x.net + ToSet(InFlight(e))), y)
  {
    var e := Transmitted(x.end);
    TransmittedOk(x.end, x.out);
    ReceiverGrows(y.end.rcv, x.out, [], x.end.sndnext, e.sndnext);
    assert x.out.(written := x.out.written + []) == x.out;
    PacketsGrow(x.net, x.end.sndnext, e.sndnext, x.out, []);
  }

  /** What the other direction sees of it: acknowledgements of what has been received. */
  lemma AcksHalf(x: Side, y: Side, e: Endpoint, more: set<Packet>)
    requires Half(x, y) && e.rcv == y.end.rcv
    requires AcksOk(more + ToSet(InFlight(e)), y.end.rcv.next)
    ensures Half(x, y.(end := e, net := y.net + more))
  {
  }

  /** More bytes in the transmit ring, seen from their direction. */
  lemma QueuedHalf(x: Side, y: Side, more: seq<byte>)
    requires Half(x, y)
    ensures Half(Side(x.end.(transmit := x.end.transmit + more), x.out.(written := x.out.written + more), x.net), y)
  {
    QueuedOk(x.end, x.out, more);
    ReceiverGrows(y.end.rcv, x.out, more, x.end.sndnext, x.end.sndnext);
    PacketsGrow(x.net, x.end.sndnext, x.end.sndnext, x.out, more);
  }

  lemma SendKeeps(s: System, s': System, bytes: seq<byte>, lens: seq<nat>, at: Cursor, count: nat, more: seq<byte>)
    requires Inv(s) && Short(s') && SendStep(s, s', bytes, lens, at, count, more)
    ensures Inv(s')
  {
    hide ReceiverOk, DataOk, Reach, Sum, TakenFrom;
    var a1 := Side(s.a.end.(transmit := s.a.end.transmit + more), s.a.out.(written := s.a.out.written + more), s.a.net);
    QueuedHalf(s.a, s.b, more);
    if a1.end.sndnext == a1.end.unack {
      TransmitHalf(a1, s.b);
      var e := Transmitted(a1.end);
      AcksHalf(s.b, s.a, e, ToSet(InFlight(e)));
    } else {
      assert s'.a.net == s.a.net;
    }
  }

  lemma RetransmitKeeps(s: System, s': System)
    requires Inv(s) && RetransmitStep(s, s')
    ensures Inv(s')
  {
  }

  lemma LoseKeeps(s: System, s': System, p: Packet)
    requires Inv(s) && LoseStep(s, s', p)
    ensures Inv(s')
  {
  }

  lemma RecvKeeps(s: System, s': System, lens: seq<nat>, at: Cursor, count: nat, data: seq<byte>)
    requires Inv(s) && Short(s) && RecvStep(s, s', lens, at, count, data)
    ensures Inv(s')
  {
    hide IsScattered, Reach;
    var r := s.a.end.rcv;
    var b := s.b.(out := s.b.out.(read := s.b.out.read + data));
    var e := s'.a.end;
    ReadInOrder(r, s.b.out, s.b.end.sndnext, data);
    ReadPackets(s.b, data);
    assert Half(b, s.a.(end := e));
    AcksHalf(b, s.a.(end := e), e, ToSet([AckOf(e)]));
    BareAcksHalf(s.a, s.b, e.rcv, [AckOf(e)]);
  }

  lemma ReadInOrder(r: Receiver, st: Stream, sent: int, data: seq<byte>)
    requires ReceiverOk(r, st, sent) && |data| <= |r.buffer| && st.base + |st.written| + RING_SIZE < MODULUS
    ensures var n := |data|;
            ReceiverOk(r.(buffer := r.buffer[n..], window := r.window + n), st.(read := st.read + data), sent)
  {
    ReadOk(r, |data|);
    ReadSlices(r.queue, st, sent, data);
  }

  /** The sender's side does not depend on what has been read. */
  lemma ReadPackets(x: Side, data: seq<byte>)
    requires SenderOk(x.end, x.out) && PacketsOk(x.net, x.end.sndnext, x.out)
    ensures var st := x.out.(read := x.out.read + data);
            SenderOk(x.end, st) && PacketsOk(x.net, x.end.sndnext, st)
  {
    var st := x.out.(read := x.out.read + data);
    forall p | p in x.net
      ensures DataOk(p, x.end.sndnext, st)
    {
      assert DataOk(p, x.end.sndnext, x.out);
    }
  }

  lemma ReadSlices(queue: seq<Segment>, st: Stream, sent: int, data: seq<byte>)
    requires AllSlices(queue, st, sent)
    ensures AllSlices(queue, st.(read := st.read + data), sent)
  {
  }

  /** An acknowledgement of everything sent: the peer has it all, so nothing is lost when the
      retransmit buffer is reused. */
  lemma AckedHalf(x: Side, y: Side, p: Packet)
    requires Half(x, y) && p in y.net && p.ack == x.end.sndnext
    requires x.out.base + |x.out.written| < MODULUS
    ensures y.end.rcv.next == x.end.sndnext
    ensures var (e, out) := Acked(x.end, p);
            Half(x.(end := e, net := x.net + ToSet(out)), y)
  {
    var x1 := x.(end := x.end.(unack := p.ack));
    assert Half(x1, y);
    if x1.end.transmit != [] {
      TransmitHalf(x1, y);
    } else {
      assert x1.net + ToSet([]) == x1.net;
    }
  }

  /** Receiving a packet, seen from the direction that carries its data. */
  lemma ReceivedHalf(x: Side, y: Side, p: Packet, canQueue: bool)
    requires Half(x, y) && p in x.net && x.out.base + |x.out.written| < MODULUS
    ensures var e := y.end.(rcv := Received(y.end.rcv, Segment(p.seqn, p.data), canQueue));
            && y.end.rcv.next <= e.rcv.next
            && Half(x, y.(end := e))
  {
    var seg := Segment(p.seqn, p.data);
    assert DataOk(p, x.end.sndnext, x.out);
    ReceivedInOrder(y.end.rcv, seg, canQueue, x.out, x.end.sndnext);
    ReceivedOk(y.end.rcv, seg, canQueue);
  }

  /** An endpoint after the data part of a delivery, and the acknowledgement it sends. */
  ghost function AfterData(x: Side, p: Packet, canQueue: bool): (x': Side) {
    var seg := Segment(p.seqn, p.data);
    var e := x.end.(rcv := Received(x.end.rcv, seg, canQueue));
    x.(end := e, net := x.net + ToSet(if ShouldAck(x.end.rcv, seg) then [AckOf(e)] else []))
  }

  /** The first half of a delivery: the data it carries. */
  lemma ReceivedBoth(x: Side, y: Side, p: Packet, canQueue: bool)
    requires Half(x, y) && Half(y, x) && p in y.net && y.out.base + |y.out.written| < MODULUS
    ensures Half(AfterData(x, p, canQueue), y) && Half(y, AfterData(x, p, canQueue))
  {
    var seg := Segment(p.seqn, p.data);
    var e := x.end.(rcv := Received(x.end.rcv, seg, canQueue));
    var acks := if ShouldAck(x.end.rcv, seg) then [AckOf(e)] else [];
    ReceivedHalf(y, x, p, canQueue);
    AcksHalf(y, x.(end := e), e, ToSet(acks));
    BareAcksHalf(x, y, e.rcv, acks);
  }

  /** An endpoint after the acknowledgement part of a delivery. */
  ghost function AfterAck(x: Side, p: Packet): (x': Side) {
    if p.ack != x.end.sndnext then x else
    var (e, out) := Acked(x.end, p);
    x.(end := e, net := x.net + ToSet(out))
  }

  lemma DeliveryInTwo(x: Side, p: Packet, canQueue: bool)
    ensures var (e, out) := Delivered(x.end, p, canQueue);
            x.(end := e, net := x.net + ToSet(out)) == AfterAck(AfterData(x, p, canQueue), p)
  {
    var seg := Segment(p.seqn, p.data);
    var e1 := x.end.(rcv := Received(x.end.rcv, seg, canQueue));
    var acks := if ShouldAck(x.end.rcv, seg) then [AckOf(e1)] else [];
    var more := Acked(e1, p).1;
    assert x.net + ToSet(acks + more) == x.net + ToSet(acks) + ToSet(more);
  }

  lemma DeliverKeeps(s: System, s': System, p: Packet, canQueue: bool)
    requires Inv(s) && Short(s) && DeliverStep(s, s', p, canQueue)
    ensures Inv(s')
  {
    DeliveryInTwo(s.a, p, canQueue);
    ReceivedBoth(s.a, s.b, p, canQueue);
    AckedBoth(AfterData(s.a, p, canQueue), s.b, p);
  }

  /** The second half of a delivery: the acknowledgement it carries. */
  lemma AckedBoth(x: Side, y: Side, p: Packet)
    requires Half(x, y) && Half(y, x) && p in y.net && x.out.base + |x.out.written| < MODULUS
    ensures Half(AfterAck(x, p), y) && Half(y, AfterAck(x, p))
  {
    if p.ack == x.end.sndnext {
      var (e, out) := Acked(x.end, p);
      AckedHalf(x, y, p);
      AcksHalf(y, x, e, ToSet(out));
    }
  }

  /** A bare acknowledgement carries no data, so the direction of its sender does not mind. */
  lemma BareAcksHalf(x: Side, y: Side, rcv: Receiver, acks: seq<Packet>)
    requires Half(x, y)
    requires forall p :: p in acks ==> p.data == [] && p.seqn == x.end.sndnext
    ensures Half(x.(end := x.end.(rcv := rcv), net := x.net + ToSet(acks)), y)
  {
  }

  // ----- Runs

  ghost predicate IsRun(run: seq<System>, turns: seq<Turn>) {
    && |run| == |turns| + 1 && Init(run[0])
    && (forall i :: 0 <= i < |run| ==> Short(run[i]))
    && forall i :: 0 <= i < |turns| ==> Step(run[i], run[i + 1], turns[i])
  }

  lemma StepAKeeps(s: System, s': System, m: Move)
    requires Inv(s) && Short(s) && Short(s') && StepA(s, s', m)
    ensures Inv(s')
  {
    match m
    case Send(bytes, lens, at, count, data) => SendKeeps(s, s', bytes, lens, at, count, data);
    case Retransmit => RetransmitKeeps(s, s');
    case Lose(p) => LoseKeeps(s, s', p);
    case Deliver(p, canQueue) => DeliverKeeps(s, s', p, canQueue);
    case Recv(lens, at, count, data) => RecvKeeps(s, s', lens, at, count, data);
  }

  lemma StepKeeps(s: System, s': System, t: Turn)
    requires Inv(s) && Short(s) && Short(s') && Step(s, s', t)
    ensures Inv(s')
  {
    hide StepA, Half;
    if t.byA {
      StepAKeeps(s, s', t.move);
    } else {
      StepAKeeps(Mirror(s), Mirror(s'), t.move);
    }
  }

  lemma InitHalf(x: Side, y: Side)
    requires FreshSide(x, y) && FreshSide(y, x)
    requires y.out.base + RING_SIZE < MODULUS && x.out.base + RING_SIZE < MODULUS
    ensures Half(x, y)
  {
    var st := x.out;
    assert Slice(st, st.base, []);
    assert SenderOk(x.end, st);
    assert ReceiverOk(y.end.rcv, st, st.base);
    assert InFlight(y.end) == [];
  }

  ghost predicate PrefixRead(s: System) {
    s.a.out.read <= s.a.out.written && s.b.out.read <= s.b.out.written
  }

  lemma InitInv(s: System)
    requires Init(s) && Short(s)
    ensures Inv(s) && PrefixRead(s)
  {
    InitHalf(s.a, s.b);
    InitHalf(s.b, s.a);
  }

  lemma {:induction false} RunKeeps(run: seq<System>, turns: seq<Turn>, i: nat)
    requires IsRun(run, turns) && i < |run|
    ensures Inv(run[i])
  {
    hide Init, Short, Step, Inv;
    if i == 0 {
      InitInv(run[0]);
    } else {
      RunKeeps(run, turns, i - 1);
      StepKeeps(run[i - 1], run[i], turns[i - 1]);
    }
  }

  /** End-to-end safety, for either direction of every state of every run: the receive ring holds the
      next part of what was written, behind as many bytes as were read; the transmit ring holds
      what is unsent; the retransmit buffer holds exactly the bytes that are sent and not
      acknowledged; and nothing is acknowledged before the peer has it. */
  lemma EndToEnd(run: seq<System>, turns: seq<Turn>, i: nat)
    requires IsRun(run, turns) && i < |run|
    ensures DirectionSafe(run[i].a, run[i].b) && DirectionSafe(run[i].b, run[i].a)
  {
    RunKeeps(run, turns, i);
    HalfSafe(run[i].a, run[i].b);
    HalfSafe(run[i].b, run[i].a);
  }

  ghost predicate DirectionSafe(x: Side, y: Side) {
    var st := x.out;
    && |st.read| + |y.end.rcv.buffer| <= |st.written|
    && y.end.rcv.buffer == st.written[|st.read|..|st.read| + |y.end.rcv.buffer|]
    && st.base <= x.end.unack <= y.end.rcv.next == st.base + |st.read| + |y.end.rcv.buffer| <= x.end.sndnext
    && x.end.sndnext - st.base <= |st.written| && x.end.transmit == st.written[x.end.sndnext - st.base..]
    && (x.end.unack < x.end.sndnext ==>
          && x.end.retransmit.Some?
          && x.end.retransmit.value.data == st.written[x.end.unack - st.base..x.end.sndnext - st.base])
  }

  lemma HalfSafe(x: Side, y: Side)
    requires Half(x, y)
    ensures DirectionSafe(x, y)
  {
    hide PacketsOk, AcksOk, AllSlices, Ok, InFlight, ToSet;
    var st, n := x.out, x.end.sndnext - x.out.base;
    assert st.written[n..n + |x.end.transmit|] == st.written[n..];
  }

  // ----- What a read hands out

  /** A read hands out the next bytes of the stream, whatever they are, exactly when it fits. */
  lemma RecvExact(e: Endpoint, m: Move, free: nat)
    requires m.Recv? && CursorOk(m.lens, m.at) && |e.rcv.buffer| + free == RING_SIZE
    requires Whole(m.lens, m.at, CopyCount(e, m.count))
    ensures (forall buffer: seq<byte>, data: seq<byte> | |buffer| == |e.rcv.buffer| ::
               IsScattered(data, buffer, free, m.lens, m.at, CopyCount(e, m.count))
               ==> data == buffer[..CopyCount(e, m.count)])
       <==> Fitting(e, m)
  {
    var n := CopyCount(e, m.count);
    CountExact(m.lens, m.at, n);
    ScatterExact(m.lens, m.at, |e.rcv.buffer|, free, n);
    assert Min(n, Min(|e.rcv.buffer|, Reach(m.lens, m.at.current, m.at.offset))) == n;
  }

  /** A read that fits hands out the front of the buffer. */
  lemma FitRead(s: System, s': System, m: Move)
    requires m.Recv? && StepA(s, s', m) && Fitting(s.a.end, m)
    ensures |m.data| <= |s.a.end.rcv.buffer| && m.data == s.a.end.rcv.buffer[..|m.data|]
  {
    var size, n := |s.a.end.rcv.buffer|, |m.data|;
    ScatterExact(m.lens, m.at, size, RING_SIZE - size, n);
  }

  lemma StepAPrefix(s: System, s': System, m: Move)
    requires Inv(s) && PrefixRead(s) && StepA(s, s', m) && Fitting(s.a.end, m)
    ensures PrefixRead(s')
  {
    hide IsScattered, SenderOk, PacketsOk, AcksOk, Ok, AllSlices;
    match m
    case Recv(lens, at, count, data) =>
      FitRead(s, s', m);
      ReadOn(s.b.out, s.a.end.rcv, s.b.end.sndnext, data);
    case Send(bytes, lens, at, count, data) =>
    case Retransmit =>
    case Lose(p) =>
    case Deliver(p, canQueue) =>
  }

  lemma StepPrefix(s: System, s': System, t: Turn)
    requires Inv(s) && PrefixRead(s) && Step(s, s', t) && ReadFits(s, t)
    ensures PrefixRead(s')
  {
    hide StepA, Half, Fitting;
    if t.byA {
      StepAPrefix(s, s', t.move);
    } else {
      StepAPrefix(Mirror(s), Mirror(s'), t.move);
    }
  }

  lemma ReadOn(st: Stream, r: Receiver, sent: int, data: seq<byte>)
    requires InOrder(r.next, r.buffer, st, sent) && st.read <= st.written && data <= r.buffer
    ensures st.read + data <= st.written
  {
    assert data == st.written[|st.read|..|st.read| + |data|];
  }

  /** Each reader gets a prefix of what the other side wrote, in every run whose reads fit. */
  lemma {:induction false} ReadsArePrefixes(run: seq<System>, turns: seq<Turn>, i: nat)
    requires IsRun(run, turns) && i < |run|
    requires forall k :: 0 <= k < |turns| ==> ReadFits(run[k], turns[k])
    ensures PrefixRead(run[i])
  {
    hide Init, Short, Step, Inv, PrefixRead, ReadFits;
    if i == 0 {
      InitInv(run[0]);
    } else {
      ReadsArePrefixes(run, turns, i - 1);
      RunKeeps(run, turns, i - 1);
      StepPrefix(run[i - 1], run[i], turns[i - 1]);
    }
  }

  /** The count assertions of tcp_send and tcp_recv hold exactly when no segment with nothing left
      cuts the transfer short. */
  lemma CountsExact(e: Endpoint, lens: seq<nat>, at: Cursor, count: nat, data: seq<byte>)
    requires CursorOk(lens, at) && |e.rcv.buffer| <= RING_SIZE
    requires IsScattered(data, e.rcv.buffer, RING_SIZE - |e.rcv.buffer|, lens, at, CopyCount(e, count))
    ensures WriteSize(e, count) <= Reach(lens, at.current, at.offset) <==> Whole(lens, at, WriteSize(e, count))
    ensures |data| == CopyCount(e, count) <==> Whole(lens, at, CopyCount(e, count))
  {
    CountExact(lens, at, WriteSize(e, count));
    CountExact(lens, at, CopyCount(e, count));
  }

  // ----- A read that does not fit

  /** The only data under way is the segment in flight, and the receiver waits for it. */
  ghost predicate Flowing(s: System) {
    && Inv(s) && s.a.out.read == [] && |s.a.out.written| <= RING_SIZE
    && s.b.end.rcv.queue == [] && s.b.end.rcv.window + |s.b.end.rcv.buffer| == RING_SIZE
    && s.b.end.transmit == [] && s.b.end.unack == s.b.end.sndnext == s.a.end.rcv.next
    && s.a.end.retransmit.Some? && s.a.end.retransmit.value in s.a.net
    && s.a.end.retransmit.value.ack == s.b.end.sndnext && s.a.end.retransmit.value.data != []
    && s.a.end.unack == s.b.end.rcv.next < s.a.end.sndnext
  }

  /** Everything written has arrived. */
  ghost predicate Arrived(s: System) {
    Inv(s) && s.a.out.read == [] && s.b.end.rcv.buffer == s.a.out.written
  }

  /** What handling the segment that is waited for amounts to. */
  lemma Arrives(e: Endpoint, p: Packet)
    requires Ok(e.rcv) && e.rcv.queue == [] && e.transmit == [] && e.unack == e.sndnext == p.ack
    requires p.seqn == e.rcv.next && 0 < |p.data| <= e.rcv.window
    ensures var r := e.rcv;
            var e' := e.(rcv := Receiver(r.next + |p.data|, r.window - |p.data|, r.buffer + p.data, []));
            Delivered(e, p, true) == (e', [AckOf(e')])
  {
    var s := Segment(p.seqn, p.data);
    EndIsLimit(s);
    AcceptableInside(e.rcv, s);
    assert Kept([], s) == [] && Flushed(s.End(), e.rcv.buffer + p.data, []) == (s.End(), e.rcv.buffer + p.data, []);
    assert ShouldAck(e.rcv, s);
    var e' := e.(rcv := Received(e.rcv, s, true));
    assert Acked(e', p) == (e', []) && [AckOf(e')] + [] == [AckOf(e')];
  }

  /** What handling a bare acknowledgement of everything sent amounts to. */
  lemma Returns(e: Endpoint, p: Packet)
    requires 0 <= e.rcv.window && p.data == [] && p.ack == e.sndnext
    ensures Delivered(e, p, true) == Acked(e, p)
  {
    assert Received(e.rcv, Segment(p.seqn, p.data), true) == e.rcv;
    assert !ShouldAck(e.rcv, Segment(p.seqn, p.data));
    assert [] + Acked(e, p).1 == Acked(e, p).1;
  }

  lemma Extend(run: seq<System>, turns: seq<Turn>, s: System, t: Turn)
    requires IsRun(run, turns) && Step(run[|turns|], s, t) && Short(s)
    ensures IsRun(run + [s], turns + [t])
  {
    hide Init, Short, Step;
    var run', turns' := run + [s], turns + [t];
    forall i | 0 <= i < |turns'|
      ensures Step(run'[i], run'[i + 1], turns'[i])
    {
      assert run'[i] == run[i];
    }
  }

  /** The segment in flight arrives at b, and the acknowledgement of it at a. */
  lemma RoundTrip(s: System) returns (s1: System, s2: System, t1: Turn, t2: Turn)
    requires Flowing(s) && Short(s)
    ensures Step(s, s1, t1) && Short(s1) && Step(s1, s2, t2) && Short(s2) && s2.a.out == s.a.out
    ensures s.a.end.transmit == [] ==> Arrived(s2)
    ensures s.a.end.transmit != [] ==> Flowing(s2) && |s2.a.end.transmit| < |s.a.end.transmit|
  {
    var p, r := s.a.end.retransmit.value, s.b.end.rcv;
    InFlightFits(s);
    Arrives(s.b.end, p);
    var e := s.b.end.(rcv := Receiver(r.next + |p.data|, r.window - |p.data|, r.buffer + p.data, []));
    s1 := s.(b := s.b.(end := e, net := s.b.net + ToSet([AckOf(e)])));
    t1 := Turn(false, Deliver(p, true));
    StepKeeps(s, s1, t1);
    var q := AckOf(e);
    Returns(s.a.end, q);
    var (e2, out) := Acked(s.a.end, q);
    s2 := s1.(a := s1.a.(end := e2, net := s1.a.net + ToSet(out)));
    t2 := Turn(true, Deliver(q, true));
    StepKeeps(s1, s2, t2);
    AfterRoundTrip(s, s1, s2, q);
  }

  /** The segment in flight is the one b waits for, and it fits the window. */
  lemma InFlightFits(s: System)
    requires Flowing(s) && Short(s)
    ensures var p, r := s.a.end.retransmit.value, s.b.end.rcv;
            && Ok(r) && 0 <= s.a.end.rcv.window && p.seqn == r.next && 0 < |p.data| <= r.window
            && r.next + |p.data| == s.a.end.sndnext < MODULUS
  {
    hide PacketsOk, AcksOk, AllSlices;
    assert ReceiverOk(s.a.end.rcv, s.b.out, s.b.end.sndnext);
    assert SenderOk(s.a.end, s.a.out) && ReceiverOk(s.b.end.rcv, s.a.out, s.a.end.sndnext);
  }

  lemma AfterRoundTrip(s: System, s1: System, s2: System, q: Packet)
    requires Flowing(s) && Inv(s2) && q.ack == s.a.end.sndnext && s1.a == s.a && s1.b.out == s.b.out
    requires var (e2, out) := Acked(s.a.end, q); s2 == s1.(a := s.a.(end := e2, net := s.a.net + ToSet(out)))
    requires var r := s.b.end.rcv; var n := s.a.end.sndnext - r.next;
             && 0 <= n <= r.window
             && s1.b.end.rcv.next == s.a.end.sndnext && s1.b.end.rcv.queue == []
             && s1.b.end.rcv.window + |s1.b.end.rcv.buffer| == RING_SIZE
             && s1.b.end.(rcv := r) == s.b.end
    ensures s2.a.out == s.a.out
    ensures s.a.end.transmit == [] ==> Arrived(s2)
    ensures s.a.end.transmit != [] ==> Flowing(s2) && |s2.a.end.transmit| < |s.a.end.transmit|
  {
    hide PacketsOk, AcksOk, AllSlices, Ok;
    assert SenderOk(s2.a.end, s2.a.out) && ReceiverOk(s2.b.end.rcv, s2.a.out, s2.a.end.sndnext);
    assert SenderOk(s.a.end, s.a.out);
    var e1 := s.a.end.(unack := q.ack);
    if s.a.end.transmit != [] {
      var p := Transmitted(e1).retransmit.value;
      assert p in InFlight(Transmitted(e1));
    }
  }

  /** Round trips until everything that was written has arrived. */
  lemma {:induction false} Pump(run: seq<System>, turns: seq<Turn>) returns (run': seq<System>, turns': seq<Turn>)
    requires IsRun(run, turns) && Flowing(run[|turns|])
    ensures IsRun(run', turns') && run'[0] == run[0]
    ensures Arrived(run'[|turns'|]) && run'[|turns'|].a.out == run[|turns|].a.out
    decreases |run[|turns|].a.end.transmit|
  {
    hide Flowing, Arrived, Step, Init, Short;
    var s := run[|turns|];
    var s1, s2, t1, t2 := RoundTrip(s);
    Extend(run, turns, s1, t1);
    Extend(run + [s1], turns + [t1], s2, t2);
    run', turns' := run + [s1] + [s2], turns + [t1] + [t2];
    if s.a.end.transmit != [] {
      run', turns' := Pump(run', turns');
    }
  }

  /** A fresh connection on which a writes one buffer. */
  lemma FirstSend(s: System, contents: seq<byte>) returns (s1: System, t: Turn)
    requires Init(s) && s.b.end.rcv.window == RING_SIZE && 0 < |contents| <= RING_SIZE && Short(s)
    requires s.a.out.base + |contents| + RING_SIZE < MODULUS
    ensures Step(s, s1, t) && Short(s1) && Flowing(s1) && s1.a.out.written == contents
  {
    hide Half, Reach, Sum;
    OneSegment(contents);
    var e := Transmitted(s.a.end.(transmit := contents));
    assert [] + contents == contents;
    s1 := s.(a := Side(e, s.a.out.(written := contents), s.a.net + ToSet(InFlight(e))));
    t := Turn(true, Send(contents, [|contents|], Cursor(0, 0), |contents|, contents));
    InitInv(s);
    StepKeeps(s, s1, t);
    assert e.retransmit.value in InFlight(e);
  }

  lemma OneSegment(contents: seq<byte>)
    requires contents != []
    ensures CursorOk([|contents|], Cursor(0, 0)) && Sum([|contents|], 1) == |contents| == Reach([|contents|], 0, 0)
    ensures TakenFrom(contents, contents, [|contents|], Cursor(0, 0))
  {
    assert Sum([|contents|], 0) == 0 && Reach([|contents|], 1, 0) == 0;
    assert contents[0..|contents|] == contents;
  }

  /** Buffered bytes that a read which does not fit mixes up. */
  lemma Misread(lens: seq<nat>, at: Cursor, size: nat, n: nat) returns (contents: seq<byte>, data: seq<byte>)
    requires n <= size <= RING_SIZE && CursorOk(lens, at) && Whole(lens, at, n)
    requires !StartsFit(lens, at.current, at.offset, n, RING_SIZE - size)
    ensures |contents| == size && |data| == n && data != contents[..n]
    ensures IsScattered(data, contents, RING_SIZE - size, lens, at, n)
  {
    CountExact(lens, at, n);
    ScatterExact(lens, at, size, RING_SIZE - size, n);
    assert Min(n, Min(size, Reach(lens, at.current, at.offset))) == n;
    contents, data :| && |contents| == size && IsScattered(data, contents, RING_SIZE - size, lens, at, n)
                      && data != contents[..n];
  }

  lemma LastRead(s: System, lens: seq<nat>, at: Cursor, count: nat, data: seq<byte>) returns (s': System, t: Turn)
    requires Arrived(s) && Short(s) && CursorOk(lens, at) && |s.a.out.written| <= RING_SIZE
    requires |data| == Min(|s.a.out.written|, count)
    requires IsScattered(data, s.a.out.written, RING_SIZE - |s.a.out.written|, lens, at, |data|)
    ensures Step(s, s', t) && Short(s') && t == Turn(false, Recv(lens, at, count, data))
    ensures s'.a.out.written == s.a.out.written && s'.a.out.read == data
  {
    hide IsScattered, Inv;
    var (e, out) := Taken(s.b.end, |data|);
    s' := System(s.a.(out := s.a.out.(read := s.a.out.read + data)), s.b.(end := e, net := s.b.net + ToSet(out)));
    t := Turn(false, Recv(lens, at, count, data));
    assert [] + data == data;
  }

  /** Every read that does not fit ends some run with bytes that are not a prefix of what was written:
      for any fresh connection, any amount of data and any shape of the reader's segments. */
  lemma MisreadRun(s: System, size: nat, lens: seq<nat>, at: Cursor, count: nat)
    returns (run: seq<System>, turns: seq<Turn>)
    requires Init(s) && Short(s) && s.b.end.rcv.window == RING_SIZE
    requires 0 < size <= RING_SIZE && s.a.out.base + size + RING_SIZE < MODULUS
    requires CursorOk(lens, at) && Whole(lens, at, Min(size, count))
    requires !StartsFit(lens, at.current, at.offset, Min(size, count), RING_SIZE - size)
    ensures IsRun(run, turns) && run[0] == s && turns != []
    ensures var last := turns[|turns| - 1];
            !last.byA && last.move.Recv? && last.move.lens == lens && last.move.at == at && last.move.count == count
    ensures var st := run[|turns|].a.out; |st.written| == size && !(st.read <= st.written)
  {
    hide Flowing, Arrived, Init, Short, Whole, StartsFit, Step, IsScattered;
    var contents, data := Misread(lens, at, size, Min(size, count));
    var s1, t1 := FirstSend(s, contents);
    Extend([s], [], s1, t1);
    run, turns := Pump([s] + [s1], [] + [t1]);
    var s2, t2 := LastRead(run[|turns|], lens, at, count, data);
    Extend(run, turns, s2, t2);
    run, turns := run + [s2], turns + [t2];
  }

  /** One such read: 40000 bytes into segments of 30000 and 10000, of which the second is filled from
      byte 25535 on. */
  lemma BrokenPrefix(s: System) returns (run: seq<System>, turns: seq<Turn>)
    requires Init(s) && Short(s) && s.b.end.rcv.window == RING_SIZE && s.a.out.base == 0
    ensures IsRun(run, turns) && run[0] == s
    ensures !(run[|turns|].a.out.read <= run[|turns|].a.out.written)
  {
    var lens: seq<nat>, at := [30000, 10000], Cursor(0, 0);
    assert Sum(lens, 0) == 0 && Sum(lens, 1) == 30000 && Sum(lens, 2) == 40000;
    assert Start(lens, 0, 0, 1) == 30000;
    run, turns := MisreadRun(s, 40000, lens, at, 40000);
  }
}
