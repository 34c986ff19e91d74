/**
 One established endpoint of kernel-src/io/net/tcp.c: the receive state together with the
 stop-and-wait sender, which keeps unsent bytes in the transmit ring and the one segment in
 flight in the retransmit buffer. The functions give the effect of each operation and the
 packets it emits; the class Tcb performs the operations on its ring buffers.
 */
module TcpEndpoint {
  import opened Arith
  import opened Common
  import opened RingBuffers
  import opened Iovecs
  import opened TcpSequence
  import opened TcpReceive

  /** The parts of a segment that matter here; an empty one is a bare acknowledgement. */
  datatype Packet = Packet(seqn: u32, ack: u32, data: seq<byte>)

  datatype Endpoint = Endpoint(
    rcv: Receiver,
    transmit: seq<byte>,
    retransmit: Option<Packet>,
    unack: u32,
    sndnext: u32,
    mss: nat)

  /** tcp_ack */
  function AckOf(e: Endpoint): (p: Packet) {
    Packet(e.sndnext, e.rcv.next, [])
  }

  /** Whether tcp_queuereceivepacket asks for an acknowledgement. */
  predicate ShouldAck(r: Receiver, s: Segment) {
    || |s.data| > r.window
    || (s.data != [] && (!SeqInRange(s.seqn, s.End(), r.next, Add(r.next, r.window)) || s.seqn == r.next))
  }

  /** tcp_transmitnextsegment: the next bytes of the ring become the segment in flight. */
  function Transmitted(e: Endpoint): (e': Endpoint)
    requires e.transmit != []
  {
    var n := Min(e.mss, |e.transmit|);
    var p := Packet(e.sndnext, e.rcv.next, e.transmit[..n]);
    e.(transmit := e.transmit[n..], retransmit := Some(p), sndnext := Add(e.sndnext, n))
  }

  function InFlight(e: Endpoint): (ps: seq<Packet>) {
    if e.retransmit.Some? then [e.retransmit.value] else []
  }

  /** tcp_handleack, for an acknowledgement of everything sent. */
  function Acked(e: Endpoint, p: Packet): (r: (Endpoint, seq<Packet>)) {
    var e1 := e.(unack := p.ack);
    if e1.transmit == [] then (e1, []) else (Transmitted(e1), InFlight(Transmitted(e1)))
  }

  /** tcp_handledatareceive without FIN. */
  function Delivered(e: Endpoint, p: Packet, canQueue: bool): (r: (Endpoint, seq<Packet>)) {
    var s := Segment(p.seqn, p.data);
    var e1 := e.(rcv := Received(e.rcv, s, canQueue));
    var acks := if ShouldAck(e.rcv, s) then [AckOf(e1)] else [];
    if p.ack == e1.sndnext then
      var (e2, out) := Acked(e1, p);
      (e2, acks + out)
    else (e1, acks)
  }

  /** How much tcp_send asks the gather for, and tcp_recv the scatter. */
  function WriteSize(e: Endpoint, count: nat): (n: nat) {
    if |e.transmit| < RING_SIZE then Min(RING_SIZE - |e.transmit|, count) else 0
  }

  function CopyCount(e: Endpoint, count: nat): (n: nat) {
    Min(|e.rcv.buffer|, count)
  }

  /** tcp_send, once more has been gathered into the transmit ring. */
  function Sent(e: Endpoint, more: seq<byte>): (r: (Endpoint, seq<Packet>))
    requires more != []
  {
    var e1 := e.(transmit := e.transmit + more);
    if e1.sndnext == e1.unack then (Transmitted(e1), InFlight(Transmitted(e1))) else (e1, [])
  }

  /** tcp_recv, once n bytes have been scattered from the receive ring. */
  function Taken(e: Endpoint, n: nat): (r: (Endpoint, seq<Packet>))
    requires n <= |e.rcv.buffer|
  {
    var e1 := e.(rcv := e.rcv.(buffer := e.rcv.buffer[n..], window := e.rcv.window + n));
    (e1, [AckOf(e1)])
  }

  /** How a transfer ends: with a count, with EFAULT, or at the count assertion. */
  datatype Outcome = Finished(donecount: nat) | Fault | Halted

  /** The bytes that a list of packets carries. */
  function Carried(ps: seq<Packet>): (data: seq<byte>) {
    if ps == [] then [] else ps[0].data + Carried(ps[1..])
  }

  /** What the receive path needs to know of a segment: it does not cross 2^32. */
  ghost predicate Handles(r: Receiver, s: Segment) {
    Ok(r) && (s.data != [] ==> Fits(s))
  }

  class Tcb {
    var rcvnext: u32
    var rcvwindow: int
    const receivebuffer: RingBuffer
    var receivequeue: seq<Segment>
    const transmitbuffer: RingBuffer
    var retransmitbuffer: Option<Packet>
    var sndunack: u32
    var sndnext: u32
    const sndmss: nat

    ghost predicate Valid()
      reads this, receivebuffer, transmitbuffer
    {
      && receivebuffer.Valid() && transmitbuffer.Valid() && 0 < sndmss
      && receivebuffer != transmitbuffer && receivebuffer.data != transmitbuffer.data
      && receivebuffer.data.Length == transmitbuffer.data.Length == RING_SIZE
    }

    ghost function View(): (e: Endpoint)
      requires Valid()
      reads this, receivebuffer, receivebuffer.data, transmitbuffer, transmitbuffer.data
    {
      Endpoint(Receiver(rcvnext, rcvwindow, receivebuffer.Contents(), receivequeue),
               transmitbuffer.Contents(), retransmitbuffer, sndunack, sndnext, sndmss)
    }

    /** An established connection: both rings are empty and the whole receive ring is the window. */
    constructor (snd: u32, rcv: u32, mss: nat)
      requires 0 < mss
      ensures Valid() && View() == Endpoint(Receiver(rcv, RING_SIZE, [], []), [], None, snd, snd, mss)
      ensures rcv + RING_SIZE < MODULUS ==> Ok(View().rcv)
      ensures fresh(receivebuffer) && fresh(receivebuffer.data) && fresh(transmitbuffer) && fresh(transmitbuffer.data)
    {
      receivebuffer := new RingBuffer(RING_SIZE);
      transmitbuffer := new RingBuffer(RING_SIZE);
      rcvnext, rcvwindow, receivequeue := rcv, RING_SIZE, [];
      retransmitbuffer, sndunack, sndnext, sndmss := None, snd, snd, mss;
    }

    /** Moves queued segments that have become next into the ring. Both bounds of the receive
        invariant are needed: without them a write could be short. */
    method FlushQueue(ghost hi: int) returns (written: nat)
      requires Valid() && hi < MODULUS && Chain(rcvnext, receivequeue, hi)
      requires |receivebuffer.Contents()| + (hi - rcvnext) <= RING_SIZE
      modifies this`rcvnext, this`receivequeue, receivebuffer`write, receivebuffer.data
      ensures Valid() && transmitbuffer.Contents() == old(transmitbuffer.Contents())
      ensures (rcvnext, receivebuffer.Contents(), receivequeue)
           == Flushed(old(rcvnext), old(receivebuffer.Contents()), old(receivequeue))
      ensures written == |receivebuffer.Contents()| - |old(receivebuffer.Contents())|
    {
      hide Window;
      ghost var sent, was := transmitbuffer.Contents(), receivebuffer.Contents();
      written := 0;
      while receivequeue != [] && receivequeue[0].seqn == rcvnext
        invariant Valid() && Chain(rcvnext, receivequeue, hi)
        invariant |receivebuffer.Contents()| + (hi - rcvnext) <= RING_SIZE
        invariant transmitbuffer.Contents() == sent && written == |receivebuffer.Contents()| - |was|
        invariant Flushed(rcvnext, receivebuffer.Contents(), receivequeue)
               == Flushed(old(rcvnext), was, old(receivequeue))
        decreases |receivequeue|
      {
        var s := receivequeue[0];
        ChainBounds(rcvnext, receivequeue, hi);
        EndIsLimit(s);
        var r := receivebuffer.Write(s.data, |s.data|);
        assert r == Copied(|s.data|) && s.data[..|s.data|] == s.data;
        rcvnext := Add(rcvnext, |s.data|);
        written := written + |s.data|;
        receivequeue := receivequeue[1..];
      }
    }

    /** The next expected segment and all that can follow it. */
    method DeliverNext(s: Segment)
      requires Valid() && s.seqn == rcvnext && Fits(s) && rcvnext + rcvwindow < MODULUS
      requires Chain(Limit(s), receivequeue, rcvnext + rcvwindow)
      requires |receivebuffer.Contents()| + rcvwindow <= RING_SIZE
      modifies this`rcvnext, this`rcvwindow, this`receivequeue, receivebuffer`write, receivebuffer.data
      ensures Valid() && transmitbuffer.Contents() == old(transmitbuffer.Contents())
      ensures (rcvnext, receivebuffer.Contents(), receivequeue)
           == Flushed(s.End(), old(receivebuffer.Contents()) + s.data, old(receivequeue))
      ensures rcvwindow == old(rcvwindow) - (|receivebuffer.Contents()| - |old(receivebuffer.Contents())|) >= 0
    {
      hide Window;
      ghost var hi, was := rcvnext + rcvwindow, receivebuffer.Contents();
      EndIsLimit(s);
      ChainBounds(Limit(s), receivequeue, hi);
      FlushedChain(s.End(), was + s.data, receivequeue, hi);
      var r := receivebuffer.Write(s.data, |s.data|);
      assert r == Copied(|s.data|) && s.data[..|s.data|] == s.data;
      rcvnext := Add(rcvnext, |s.data|);
      var written := FlushQueue(hi);
      written := |s.data| + written;
      assert written <= rcvwindow;
      rcvwindow := rcvwindow - written;
    }

    /** tcp_queuereceivepacket: evict conflicting segments, then deliver and flush, or queue. Every
        write to the receive ring is complete, and together they stay within the window. */
    method QueueReceivePacket(s: Segment, canQueue: bool) returns (ack: bool)
      requires Valid() && Handles(View().rcv, s)
      modifies this`rcvnext, this`rcvwindow, this`receivequeue, receivebuffer`write, receivebuffer.data
      ensures Valid() && View() == old(View()).(rcv := Received(old(View()).rcv, s, canQueue))
      ensures ack == ShouldAck(old(View()).rcv, s) && Ok(View().rcv)
    {
      hide Window, Chain;
      ReceivedOk(View().rcv, s, canQueue);
      var datalen := |s.data|;
      if datalen > rcvwindow {
        return true;
      }
      if datalen == 0 {
        return false;
      }
      if !SeqInRange(s.seqn, s.End(), rcvnext, Add(rcvnext, rcvwindow)) {
        return true;
      }
      var kept := DropConflicts(receivequeue, s);
      AcceptableInside(View().rcv, s);
      KeptBeyond(rcvnext, receivequeue, rcvnext + rcvwindow, s);
      receivequeue := kept;
      if s.seqn == rcvnext {
        DeliverNext(s);
        return true;
      }
      if !canQueue {
        return false;
      }
      var i := FindPlace(rcvnext, kept, s);
      receivequeue := Inserted(kept, i, s);
      return false;
    }

    /** tcp_transmitnextsegment: the oldest unsent bytes, as many as fit one segment, leave the ring
        and stay in the retransmit buffer under the number they are sent with. */
    method TransmitNextSegment() returns (p: Packet)
      requires Valid() && transmitbuffer.Contents() != []
      modifies this`retransmitbuffer, this`sndnext, transmitbuffer`read
      ensures Valid() && View() == Transmitted(old(View())) && retransmitbuffer == Some(p)
      ensures old(transmitbuffer.Contents()) == p.data + transmitbuffer.Contents()
      ensures 0 < |p.data| <= sndmss && (|p.data| < sndmss ==> transmitbuffer.Contents() == [])
      ensures p.seqn == old(sndnext) && sndnext == Add(p.seqn, |p.data|) && p.ack == rcvnext
    {
      hide Window;
      ghost var was := transmitbuffer.Contents();
      var r, data := transmitbuffer.Read(sndmss, sndmss);
      assert r.Copied? && r.count > 0;
      assert was == was[..r.count] + was[r.count..];
      p := Packet(sndnext, rcvnext, data);
      retransmitbuffer := Some(p);
      sndnext := Add(sndnext, r.count);
    }

    /** tcp_handleack: no byte is dropped, and the next segment goes out if there is one. */
    method HandleAck(p: Packet) returns (out: seq<Packet>)
      requires Valid()
      modifies this`sndunack, this`retransmitbuffer, this`sndnext, transmitbuffer`read
      ensures Valid() && (View(), out) == Acked(old(View()), p)
      ensures Carried(out) + transmitbuffer.Contents() == old(transmitbuffer.Contents())
      ensures out == [] <==> old(transmitbuffer.Contents()) == []
    {
      sndunack := p.ack;
      out := [];
      if transmitbuffer.DataCount() != 0 {
        var q := TransmitNextSegment();
        out := [q];
        assert Carried(out) == q.data + Carried([]);
      }
    }

    /** tcp_handledatareceive without FIN: the receive invariant is kept, the right edge of the window
        stays, and the only data sent comes off the transmit ring. */
    method HandleDataReceive(p: Packet, canQueue: bool) returns (out: seq<Packet>)
      requires Valid() && Handles(View().rcv, Segment(p.seqn, p.data))
      modifies this`rcvnext, this`rcvwindow, this`receivequeue, receivebuffer`write, receivebuffer.data
      modifies this`sndunack, this`retransmitbuffer, this`sndnext, transmitbuffer`read
      ensures Valid() && (View(), out) == Delivered(old(View()), p, canQueue)
      ensures Ok(View().rcv) && rcvnext + rcvwindow == old(rcvnext + rcvwindow)
      ensures old(receivebuffer.Contents()) <= receivebuffer.Contents()
      ensures Carried(out) + transmitbuffer.Contents() == old(transmitbuffer.Contents())
    {
      hide Ok, Window;
      ghost var e := View();
      ReceivedGrows(e.rcv, Segment(p.seqn, p.data), canQueue);
      var ack := QueueReceivePacket(Segment(p.seqn, p.data), canQueue);
      var acks := if ack then [Packet(sndnext, rcvnext, [])] else [];
      BareAcks(acks);
      out := acks;
      if p.ack == sndnext {
        var more := HandleAck(p);
        CarriedJoin(acks, more);
        out := out + more;
      }
    }

    /** tcp_send through an iterator. The count assertion holds exactly when no segment with nothing
        left comes before the end of what is to be queued; then exactly those bytes of the caller
        enter the stream, once, behind what was unsent. A fault leaves the connection as it was. */
    method Send(it: IovecIterator, count: nat, accessible: nat) returns (r: Outcome, out: seq<Packet>)
      requires Valid() && it.Valid() && 0 < WriteSize(View(), count)
      modifies this`retransmitbuffer, this`sndnext, transmitbuffer, transmitbuffer.data
      modifies it`current, it`currentOffset, it`totalOffset
      ensures Valid()
      ensures var n := WriteSize(old(View()), count);
              && (r.Fault? <==> accessible < Min(n, Reach(it.lens, old(it.current), old(it.currentOffset))))
              && (r.Fault? ==> View() == old(View()) && out == [])
              && (r.Finished? ==> r.donecount == n)
              && (!r.Fault? ==> (r.Finished? <==> Whole(it.lens, old(it.At()), n)))
      ensures r.Finished? ==>
                && old(it.totalOffset) + r.donecount <= |it.Bytes()|
                && var data := it.Bytes()[old(it.totalOffset)..old(it.totalOffset) + r.donecount];
                   && (View(), out) == Sent(old(View()), data)
                   && Carried(out) + transmitbuffer.Contents() == old(transmitbuffer.Contents()) + data
    {
      hide Window, Reach, Whole, Flat, FaultAt, EndOfTransfer;
      var writesize := Min(RING_SIZE - transmitbuffer.DataCount(), count);
      out := [];
      CountExact(it.lens, it.At(), writesize);
      var done, fault := it.WriteToRing(transmitbuffer, writesize, accessible);
      if done.CopyFailed? {
        return Fault, [];
      }
      if done.count != writesize {
        return Halted, [];
      }
      r := Finished(done.count);
      if sndnext == sndunack {
        var p := TransmitNextSegment();
        out := [p];
        assert Carried(out) == p.data + Carried([]);
      }
    }

    /** tcp_recv through an iterator. The count assertion holds exactly when the segments do not stop
        the transfer; the caller then gets the oldest buffered bytes, whatever they are, exactly when
        every segment it enters starts within the free space of the ring (ScatterExact). A fault leaves
        the connection as it was. */
    method Recv(it: IovecIterator, count: nat, accessible: nat)
      returns (r: Outcome, out: seq<Packet>, ghost data: seq<byte>)
      requires Valid() && it.Valid()
      modifies this`rcvwindow, receivebuffer`read
      modifies it`iovec, it`current, it`currentOffset, it`totalOffset
      ensures Valid()
      ensures var n := CopyCount(old(View()), count);
              && IsScattered(data, old(receivebuffer.Contents()), RING_SIZE - |old(receivebuffer.Contents())|, it.lens,
                             old(it.At()), Min(n, accessible))
              && (r.Fault? <==> accessible < Min(n, Reach(it.lens, old(it.current), old(it.currentOffset))))
              && (r.Fault? ==> View() == old(View()) && out == [])
              && (r.Finished? ==> r.donecount == n)
              && (!r.Fault? ==> (r.Finished? <==> Whole(it.lens, old(it.At()), n)))
      ensures old(it.totalOffset) + |data| <= |old(it.Bytes())|
      ensures it.Bytes() == Splice(old(it.Bytes()), old(it.totalOffset), data)
      ensures r.Finished? ==> |data| == r.donecount && (View(), out) == Taken(old(View()), r.donecount)
    {
      hide Window, Reach, Whole, Flat, Origin, Splice, IsScattered, FaultAt, EndOfTransfer;
      var copycount := Min(receivebuffer.DataCount(), count);
      CountExact(it.lens, it.At(), copycount);
      var done;
      ghost var fault;
      done, data, fault := it.ReadFromRing(receivebuffer, copycount, accessible);
      if done.CopyFailed? {
        return Fault, [], data;
      }
      rcvwindow := rcvwindow + copycount;
      out := [Packet(sndnext, rcvnext, [])];
      r := if done.count == copycount then Finished(done.count) else Halted;
    }
  }

  lemma BareAcks(acks: seq<Packet>)
    requires |acks| <= 1 && (acks != [] ==> acks[0].data == [])
    ensures Carried(acks) == []
  {}

  lemma CarriedJoin(ps: seq<Packet>, qs: seq<Packet>)
    requires Carried(ps) == [] && |ps| <= 1
    ensures Carried(ps + qs) == Carried(qs)
  {
    assert ps + qs == if ps == [] then qs else [ps[0]] + qs;
    if ps != [] {
      assert (ps + qs)[1..] == qs && ps[0].data + Carried(ps[1..]) == [];
    }
  }

  /** The first loop of tcp_queuereceivepacket. */
  method DropConflicts(queue: seq<Segment>, s: Segment) returns (kept: seq<Segment>)
    ensures kept == Kept(queue, s)
  {
    hide Conflicts, Kept;
    kept := [];
    var i := 0;
    assert queue[0..] == queue;
    while i < |queue|
      invariant 0 <= i <= |queue|
      invariant kept + Kept(queue[i..], s) == Kept(queue, s)
    {
      KeptStep(queue, i, s);
      if !Conflicts(queue[i], s) {
        kept := kept + [queue[i]];
      }
      i := i + 1;
    }
    KeptNone(queue[i..], s);
  }

  lemma KeptStep(queue: seq<Segment>, i: nat, s: Segment)
    requires i < |queue|
    ensures Kept(queue[i..], s) == (if Conflicts(queue[i], s) then [] else [queue[i]]) + Kept(queue[i + 1..], s)
  {
    hide Conflicts;
    assert queue[i..][1..] == queue[i + 1..];
  }

  lemma KeptNone(queue: seq<Segment>, s: Segment)
    ensures queue == [] ==> Kept(queue, s) == []
  {}

  /** The third loop: the place of a segment in the ordered queue. */
  method FindPlace(next: u32, queue: seq<Segment>, s: Segment) returns (i: nat)
    ensures i == Place(next, queue, s)
  {
    i := 0;
    var from := next;
    while i < |queue| && !SeqInRange(s.seqn, s.End(), from, queue[i].seqn)
      invariant i <= |queue|
      invariant i + Place(from, queue[i..], s) == Place(next, queue, s)
    {
      assert queue[i..][1..] == queue[i + 1..];
      from := queue[i].End();
      i := i + 1;
    }
  }

  /** Five bytes behind an empty segment: the count assertion of tcp_send fails on a new connection. */
  method SendHalts() returns (r: Outcome, out: seq<Packet>)
    ensures r == Halted
  {
    var t := new Tcb(0, 0, 1460);
    var it := new IovecIterator([[], [0, 0, 0, 0, 0]]);
    assert it.lens == [0, 5] && it.At() == Cursor(0, 0);
    EmptyFirst();
    r, out := t.Send(it, 5, 5);
  }

  lemma EmptyFirst()
    ensures Reach([0, 5], 0, 0) == 0 && !Whole([0, 5], Cursor(0, 0), 5)
  {
    hide Whole, Sum;
    CountExact([0, 5], Cursor(0, 0), 5);
  }
}
