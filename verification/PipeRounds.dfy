/**
 The rounds of pipefs_write and pipefs_read (kernel-src/fs/pipefs.c) on the ring and on the caller's
 segments: they are the steps of the runs of a pipe.
 */
module PipeRounds {
  import opened Arith
  import opened Common
  import opened Iovecs
  import opened Pipes
  import opened RingBuffers

  /** A transfer that is not cut short by the segments takes what fits. */
  lemma Transfer(lens: seq<nat>, at: Cursor, size: nat, room: nat)
    requires CursorOk(lens, at) && Whole(lens, at, size)
    ensures Min(size, Min(room, Reach(lens, at.current, at.offset))) == Min(size, room)
  {
    CountExact(lens, at, size);
  }

  lemma TransferEnd(lens: seq<nat>, off: nat, size: nat)
    ensures EndOfTransfer(lens, off, size, size) == off + size
  {}

  /** writetopipe, with the first accessible bytes of the caller's segments readable. Where they are
      all there, it is WriteTo. */
  method WriteToPipe(it: IovecIterator, ring: RingBuffer, readers: nat, size: nat, accessible: nat)
    returns (r: Round, fault: bool)
    requires it.Valid() && ring.Valid() && ring.data.Length == CAPACITY
    modifies it`current, it`currentOffset, it`totalOffset, ring`write, ring.data
    ensures ring.Valid() && |it.Bytes()| == it.totalSize
    ensures Whole(it.lens, old(it.At()), size) && size <= accessible ==>
              && !fault && r == WriteTo(old(ring.Contents()), readers, size)
              && it.Valid() && old(it.totalOffset) + r.took <= |it.Bytes()|
              && ring.Contents() == old(ring.Contents())
                                    + it.Bytes()[old(it.totalOffset)..old(it.totalOffset) + r.took]
              && (r.took == size || r.took == 0 ==> it.totalOffset == old(it.totalOffset) + r.took)
  {
    hide Window, Reach, Whole, Flat, FaultAt, EndOfTransfer, Sum;
    it.CursorInside();
    if readers == 0 {
      assert ring.Contents() + [] == ring.Contents();
      return Round(0, BrokenPipe), false;
    }
    ghost var at, off, free := it.At(), it.totalOffset, ring.FreeSpace();
    if Whole(it.lens, at, size) {
      Transfer(it.lens, at, size, free);
      TransferEnd(it.lens, off, size);
      NoTransfer(it.lens, off, size);
      WholeFits(it.lens, at, size);
    }
    var c, _ := it.WriteToRing(ring, size, accessible);
    if c.CopyFailed? {
      return Round(0, AssertFailed), true;
    }
    r, fault := if c.count == 0 then Round(0, AssertFailed) else Round(c.count, Ok(c.count)), false;
  }

  lemma WholeFits(lens: seq<nat>, at: Cursor, n: nat)
    requires CursorOk(lens, at) && Whole(lens, at, n)
    ensures Sum(lens, at.current) + at.offset + n <= Sum(lens, |lens|)
  {}

  lemma WholeLess(lens: seq<nat>, at: Cursor, m: nat, n: nat)
    requires CursorOk(lens, at) && Whole(lens, at, n) && m <= n
    ensures Whole(lens, at, m)
  {}

  /** With one segment, the bytes up to its end are all there, and read from the right place. */
  lemma OneSegment(lens: seq<nat>, offset: nat, n: nat, free: nat)
    requires |lens| == 1 && offset + n <= lens[0]
    ensures Whole(lens, Cursor(0, offset), n) && StartsFit(lens, 0, offset, n, free)
  {
    assert Sum(lens, 0) == 0 && Sum(lens, 1) == lens[0];
  }

  /** What a round leaves, if the caller's bytes are there: the ring has grown by the bytes that the
      round took, and a call that waits goes on behind them. */
  ghost predicate Took(it: IovecIterator, ring: RingBuffer, was: seq<byte>, off: nat, r: Round)
    requires ring.Valid()
    reads it, ring, ring.data
  {
    && it.Valid() && off + r.took <= |it.Bytes()| && ring.Contents() == was + it.Bytes()[off..off + r.took]
    && (r.outcome.Wait? ==> it.totalOffset == off + r.took)
  }

  /** A round of the loop of pipefs_write is Attempt. */
  method TryWrite(it: IovecIterator, ring: RingBuffer, readers: nat, size: nat, done: nat, nonblock: bool,
                  accessible: nat) returns (r: Round, fault: bool)
    requires it.Valid() && ring.Valid() && ring.data.Length == CAPACITY
    requires done <= size && (size <= ATOMIC || nonblock ==> done == 0)
    modifies it`current, it`currentOffset, it`totalOffset, ring`write, ring.data
    ensures ring.Valid()
    ensures Whole(it.lens, old(it.At()), size - done) && size - done <= accessible ==>
              && !fault && r == Attempt(old(ring.Contents()), readers, size, done, nonblock)
              && Took(it, ring, old(ring.Contents()), old(it.totalOffset), r)
  {
    hide Window, Whole, Flat, Sum;
    it.CursorInside();
    assert ring.Contents() + [] == ring.Contents();
    r, fault := Round(0, Wait), false;
    var atomic, free := size <= ATOMIC, ring.FreeSpace();
    if nonblock && (if atomic then free < size else free == 0) {
      r := Round(0, Again);
    } else if nonblock || (atomic && free >= size) {
      r, fault := WriteToPipe(it, ring, readers, size, accessible);
    } else if !atomic && free != 0 {
      r, fault := TryPart(it, ring, readers, size, done, accessible);
    }
  }

  /** A round of a large write that may wait: it takes as much as there is room for. */
  method TryPart(it: IovecIterator, ring: RingBuffer, readers: nat, size: nat, done: nat, accessible: nat)
    returns (r: Round, fault: bool)
    requires it.Valid() && ring.Valid() && ring.data.Length == CAPACITY
    requires done <= size && ATOMIC < size && ring.FreeSpace() != 0
    modifies it`current, it`currentOffset, it`totalOffset, ring`write, ring.data
    ensures ring.Valid()
    ensures Whole(it.lens, old(it.At()), size - done) && size - done <= accessible ==>
              && !fault && r == Attempt(old(ring.Contents()), readers, size, done, false)
              && Took(it, ring, old(ring.Contents()), old(it.totalOffset), r)
  {
    hide Window, Whole, Flat, Sum;
    var count := Min(ring.FreeSpace(), size - done);
    if Whole(it.lens, it.At(), size - done) { WholeLess(it.lens, it.At(), count, size - done); }
    var w;
    w, fault := WriteToPipe(it, ring, readers, count, accessible);
    r := if !w.outcome.Ok? then w
         else if w.took != count then Round(w.took, AssertFailed)
         else Round(count, if done + count == size then Ok(size) else Wait);
  }

  /** pipefs_read with something to read takes the step Read: the oldest bytes leave the ring, and are
      what the caller gets if every segment it fills starts within the free space of the ring. */
  method TryRead(it: IovecIterator, ring: RingBuffer, size: nat, accessible: nat)
    returns (fault: bool, ghost out: seq<byte>)
    requires it.Valid() && ring.Valid() && ring.data.Length == CAPACITY
    modifies it`iovec, it`current, it`currentOffset, it`totalOffset, ring`read
    ensures ring.Valid()
    ensures old(it.totalOffset) + |out| <= |old(it.Bytes())|
            && it.Bytes() == Splice(old(it.Bytes()), old(it.totalOffset), out)
    ensures var n := Min(size, |old(ring.Contents())|);
            Whole(it.lens, old(it.At()), size) && size <= accessible ==>
              && !fault && |out| == n && ring.Contents() == old(ring.Contents())[n..]
              && (StartsFit(it.lens, old(it.current), old(it.currentOffset), n, old(ring.FreeSpace())) ==>
                    out == old(ring.Contents())[..n])
  {
    hide Window, Reach, Whole, Flat, FaultAt, EndOfTransfer, Sum, Splice, IsScattered, StartsFit;
    ghost var at, contents, free := it.At(), ring.Contents(), ring.FreeSpace();
    if Whole(it.lens, at, size) {
      Transfer(it.lens, at, size, |contents|);
      ScatterExact(it.lens, at, |contents|, free, size);
    }
    var c: CopyResult;
    ghost var last;
    c, out, last := it.ReadFromRing(ring, size, accessible);
    fault := c.CopyFailed?;
  }
}
