/**
 The scatter/gather iterator (kernel-src/io/iovec.c) and its transfers to and from a ring.
 A list of segments stands for the concatenation of their bytes; a cursor (segment, offset)
 walks over it. The memory behind the segments is the field iovec, which a scatter reassigns;
 the lengths of the segments never change.
 */
module Iovecs {
  import opened Arith
  import opened Common
  import opened RingBuffers

  /** The first k segments, concatenated. */
  function Flat(segs: seq<seq<byte>>, k: nat): (s: seq<byte>)
    requires k <= |segs|
  {
    if k == 0 then [] else Flat(segs, k - 1) + segs[k - 1]
  }

  function Sum(lens: seq<nat>, k: nat): (n: nat)
    requires k <= |lens|
  {
    if k == 0 then 0 else Sum(lens, k - 1) + lens[k - 1]
  }

  ghost predicate HasLengths(segs: seq<seq<byte>>, lens: seq<nat>) {
    |segs| == |lens| && forall k :: 0 <= k < |segs| ==> |segs[k]| == lens[k]
  }

  /** Overwrites s from position a with chunk. */
  function Splice(s: seq<byte>, a: nat, chunk: seq<byte>): (r: seq<byte>)
    requires a + |chunk| <= |s|
    ensures |r| == |s|
  {
    s[..a] + chunk + s[a + |chunk|..]
  }

  /** Bytes from a cursor up to the first segment with nothing left in it. */
  function Reach(lens: seq<nat>, current: nat, offset: nat): (n: nat)
    requires current <= |lens| && (current < |lens| ==> offset <= lens[current])
    decreases |lens| - current
  {
    if current == |lens| || lens[current] == offset then 0
    else lens[current] - offset + Reach(lens, current + 1, 0)
  }

  /** Where byte i of a scatter is read from: every segment is filled by a peek at the number of
      bytes delivered before it, and a peek clamps its offset to the free space. */
  function Origin(lens: seq<nat>, free: nat, current: nat, offset: nat, done: nat, i: nat): (n: int)
    requires current <= |lens| && (current < |lens| ==> offset <= lens[current])
    decreases |lens| - current
  {
    if current == |lens| then 0
    else if i < done + (lens[current] - offset) then Min(done, free) + (i - done)
    else Origin(lens, free, current + 1, 0, done + (lens[current] - offset), i)
  }

  lemma {:induction false} SumMonotone(lens: seq<nat>, j: nat, k: nat)
    requires j <= k <= |lens|
    ensures Sum(lens, j) <= Sum(lens, k)
    decreases k
  {
    if j < k { SumMonotone(lens, j, k - 1); }
  }

  lemma {:induction false} FlatLength(segs: seq<seq<byte>>, lens: seq<nat>, k: nat)
    requires HasLengths(segs, lens) && k <= |segs|
    ensures |Flat(segs, k)| == Sum(lens, k)
  {
    if k > 0 { FlatLength(segs, lens, k - 1); }
  }

  /** What lies at a cursor is found at the matching place of the concatenation. */
  lemma {:induction false} FlatAt(segs: seq<seq<byte>>, lens: seq<nat>, k: nat, m: nat, o: nat, n: nat)
    requires HasLengths(segs, lens) && k < m <= |segs| && o + n <= lens[k]
    ensures Sum(lens, k) + o + n <= |Flat(segs, m)| == Sum(lens, m)
    ensures Flat(segs, m)[Sum(lens, k) + o..Sum(lens, k) + o + n] == segs[k][o..o + n]
    decreases m
  {
    FlatLength(segs, lens, m);
    FlatLength(segs, lens, m - 1);
    if k < m - 1 { FlatAt(segs, lens, k, m - 1, o, n); }
  }

  lemma {:induction false} FlatPrefix(segs: seq<seq<byte>>, segs': seq<seq<byte>>, m: nat)
    requires m <= |segs| == |segs'| && forall k :: 0 <= k < m ==> segs[k] == segs'[k]
    ensures Flat(segs, m) == Flat(segs', m)
  {
    if m > 0 { FlatPrefix(segs, segs', m - 1); }
  }

  lemma SpliceInHead(a: seq<byte>, b: seq<byte>, at: nat, chunk: seq<byte>)
    requires at + |chunk| <= |a|
    ensures Splice(a, at, chunk) + b == Splice(a + b, at, chunk)
  {}

  lemma SpliceInTail(a: seq<byte>, b: seq<byte>, at: nat, chunk: seq<byte>)
    requires at + |chunk| <= |b|
    ensures a + Splice(b, at, chunk) == Splice(a + b, |a| + at, chunk)
  {}

  /** Overwriting inside one segment overwrites the matching place of the concatenation. */
  lemma {:induction false} FlatSplice(segs: seq<seq<byte>>, lens: seq<nat>, k: nat, m: nat, o: nat, chunk: seq<byte>)
    requires HasLengths(segs, lens) && k < m <= |segs| && o + |chunk| <= lens[k]
    ensures Sum(lens, k) + o + |chunk| <= |Flat(segs, m)|
    ensures Flat(segs[k := Splice(segs[k], o, chunk)], m) == Splice(Flat(segs, m), Sum(lens, k) + o, chunk)
    decreases m
  {
    if k == m - 1 {
      FlatSpliceLast(segs, lens, k, o, chunk);
    } else {
      hide Splice, Sum;
      FlatSplice(segs, lens, k, m - 1, o, chunk);
      SpliceInHead(Flat(segs, m - 1), segs[m - 1], Sum(lens, k) + o, chunk);
    }
  }

  lemma FlatSpliceLast(segs: seq<seq<byte>>, lens: seq<nat>, k: nat, o: nat, chunk: seq<byte>)
    requires HasLengths(segs, lens) && k < |segs| && o + |chunk| <= lens[k]
    ensures Sum(lens, k) + o + |chunk| <= |Flat(segs, k + 1)|
    ensures Flat(segs[k := Splice(segs[k], o, chunk)], k + 1) == Splice(Flat(segs, k + 1), Sum(lens, k) + o, chunk)
  {
    hide Splice, Sum;
    FlatLength(segs, lens, k);
    FlatPrefix(segs, segs[k := Splice(segs[k], o, chunk)], k);
    SpliceInTail(Flat(segs, k), segs[k], o, chunk);
  }

  lemma SpliceJoin(s: seq<byte>, a: nat, x: seq<byte>, y: seq<byte>)
    requires a + |x| + |y| <= |s|
    ensures Splice(Splice(s, a, x), a + |x|, y) == Splice(s, a, x + y)
  {}

  lemma SpliceOn(s: seq<byte>, a: nat, buffer: seq<byte>, d: nat, n: nat)
    requires a + d + n <= |s| && d + n <= |buffer|
    ensures Splice(Splice(s, a, buffer[..d]), a + d, buffer[d..d + n]) == Splice(s, a, buffer[..d + n])
  {
    SpliceJoin(s, a, buffer[..d], buffer[d..d + n]);
    assert buffer[..d] + buffer[d..d + n] == buffer[..d + n];
  }

  lemma SpliceNothing(s: seq<byte>, a: nat)
    requires a <= |s|
    ensures Splice(s, a, []) == s
  {}

  lemma {:induction false} ReachBound(lens: seq<nat>, current: nat, offset: nat)
    requires current <= |lens| && (if current < |lens| then offset <= lens[current] else offset == 0)
    ensures Reach(lens, current, offset) <= Sum(lens, |lens|) - Sum(lens, current) - offset
    decreases |lens| - current
  {
    if current < |lens| {
      SumMonotone(lens, current + 1, |lens|);
      ReachBound(lens, current + 1, 0);
    }
  }

  /** The end of the segment that holds byte p - 1 of the concatenation. */
  function EndAt(lens: seq<nat>, k: nat, p: nat): (e: nat)
    requires k <= |lens|
    ensures p <= e
    decreases |lens| - k
  {
    if k == |lens| then p else if p <= Sum(lens, k + 1) then Sum(lens, k + 1) else EndAt(lens, k + 1, p)
  }

  lemma {:induction false} EndAtIs(lens: seq<nat>, k: nat, c: nat, p: nat)
    requires k <= c < |lens| && Sum(lens, c) < p <= Sum(lens, c + 1)
    ensures EndAt(lens, k, p) == Sum(lens, c + 1)
    decreases c - k
  {
    if k < c {
      SumMonotone(lens, k + 1, c);
      EndAtIs(lens, k + 1, c, p);
    }
  }

  /** Where the cursor is after done of want bytes from an offset: at the end of the segment that was
      transferred last, or where the want ends if that is earlier. */
  function EndOfTransfer(lens: seq<nat>, off: nat, done: nat, want: nat): (p: nat) {
    if done == 0 then off else Min(off + want, EndAt(lens, 0, off + done))
  }

  /** A cursor as a value, and its move over at most one segment boundary. */
  datatype Cursor = Cursor(current: nat, offset: nat)

  ghost predicate CursorOk(lens: seq<nat>, at: Cursor) {
    at.current < |lens| && at.offset <= lens[at.current]
  }

  function Advance(lens: seq<nat>, at: Cursor, n: nat): (at': Cursor)
    requires at.current < |lens| && at.offset + n <= lens[at.current]
    ensures at'.current < |lens| && at'.offset <= lens[at'.current]
  {
    if at.offset + n == lens[at.current] && Sum(lens, at.current) + at.offset + n < Sum(lens, |lens|)
    then SumMonotone(lens, at.current + 1, |lens|); Cursor(at.current + 1, 0)
    else Cursor(at.current, at.offset + n)
  }

  // ----- Skipping

  /** iovec_iterator_skip from any cursor and with any total offset: where it ends, and the total offset
      then. None means that it runs past the list. */
  function Skipped(lens: seq<nat>, total: nat, at: Cursor, off: nat, n: nat): (r: Option<(Cursor, nat)>)
    requires at.current <= |lens| && (at.current < |lens| ==> at.offset <= lens[at.current])
    decreases |lens| - at.current
  {
    if at.current == |lens| then None else
    var k := Min(lens[at.current] - at.offset, n);
    var at' := if at.offset + k == lens[at.current] && off + k != total then Cursor(at.current + 1, 0)
               else Cursor(at.current, at.offset + k);
    if n - k == 0 || off + k == total then Some((at', off + k)) else Skipped(lens, total, at', off + k, n - k)
  }

  /** One round of its loop. */
  lemma SkippedStep(lens: seq<nat>, total: nat, at: Cursor, off: nat, n: nat)
    requires CursorOk(lens, at)
    ensures var k := Min(lens[at.current] - at.offset, n);
            var at' := if at.offset + k == lens[at.current] && off + k != total then Cursor(at.current + 1, 0)
                       else Cursor(at.current, at.offset + k);
            Skipped(lens, total, at, off, n)
            == if n - k == 0 || off + k == total then Some((at', off + k))
               else Skipped(lens, total, at', off + k, n - k)
  {}

  lemma SkippedPast(lens: seq<nat>, total: nat, at: Cursor, off: nat, n: nat)
    requires at.current == |lens|
    ensures Skipped(lens, total, at, off, n) == None
  {}

  /** From a cursor whose total offset is right, it goes n bytes on, or to the end. */
  lemma {:induction false} SkippedOn(lens: seq<nat>, at: Cursor, n: nat)
    requires CursorOk(lens, at)
    ensures var total, off := Sum(lens, |lens|), Sum(lens, at.current) + at.offset;
            var r := Skipped(lens, total, at, off, n);
            && r.Some? && CursorOk(lens, r.value.0) && r.value.1 == Min(off + n, total)
            && r.value.1 == Sum(lens, r.value.0.current) + r.value.0.offset
            && (n <= lens[at.current] - at.offset ==> r.value.0 == Advance(lens, at, n))
    decreases |lens| - at.current
  {
    SumMonotone(lens, at.current + 1, |lens|);
    var k := Min(lens[at.current] - at.offset, n);
    if n != k && Sum(lens, at.current) + at.offset + k != Sum(lens, |lens|) {
      SkippedOn(lens, Cursor(at.current + 1, 0), n - k);
    }
  }

  /** Skipping moves the cursor and the total offset by the same number of bytes. */
  lemma {:induction false} SkippedDrift(lens: seq<nat>, total: nat, at: Cursor, off: nat, n: nat)
    requires CursorOk(lens, at) && off + n <= total
    ensures var r := Skipped(lens, total, at, off, n);
            r.Some? ==>
              && r.value.1 == off + n && r.value.0.current <= |lens|
              && Sum(lens, r.value.0.current) + r.value.0.offset == Sum(lens, at.current) + at.offset + n
    decreases |lens| - at.current
  {
    var k := Min(lens[at.current] - at.offset, n);
    if n != k && at.current + 1 < |lens| && off + k != total {
      SkippedDrift(lens, total, Cursor(at.current + 1, 0), off + k, n - k);
    }
  }

  /** iovec_iterator_set starts over at the current segment, not at the first one: it finds the place of
      an offset exactly if no byte lies before that segment. */
  lemma SetExact(lens: seq<nat>, c: nat, s: nat)
    requires c < |lens| && s <= Sum(lens, |lens|)
    ensures var r := Skipped(lens, Sum(lens, |lens|), Cursor(c, 0), 0, s);
            (r.Some? && CursorOk(lens, r.value.0) && Sum(lens, r.value.0.current) + r.value.0.offset == r.value.1 == s)
            <==> Sum(lens, c) == 0
  {
    SkippedDrift(lens, Sum(lens, |lens|), Cursor(c, 0), 0, s);
    if Sum(lens, c) == 0 {
      SkippedOn(lens, Cursor(c, 0), s);
    }
  }

  /** A fault in the second of two segments, in a transfer from the beginning: the cursor then says
      offset zero and stands at byte four. */
  lemma SetMisses()
    ensures Skipped([4, 4], 8, Cursor(1, 0), 0, 0) == Some((Cursor(1, 0), 0)) && Sum([4, 4], 1) == 4
  {
    assert Sum([4, 4], 0) == 0;
  }

  class IovecIterator {
    var iovec: seq<seq<byte>>
    const lens: seq<nat>
    var current: nat
    var currentOffset: nat
    var totalOffset: nat
    const totalSize: nat

    /** The lengths of the segments are those of the memory behind them. */
    ghost predicate Framed()
      reads this
    {
      HasLengths(iovec, lens) && totalSize == Sum(lens, |lens|)
    }

    ghost predicate Valid()
      reads this
    {
      && Framed() && current < |lens| && currentOffset <= lens[current]
      && totalOffset == Sum(lens, current) + currentOffset
    }

    ghost function Bytes(): (s: seq<byte>)
      reads this
    {
      Flat(iovec, |iovec|)
    }

    function At(): (at: Cursor)
      reads this
    {
      Cursor(current, currentOffset)
    }

    predicate Finished()
      reads this
    {
      totalSize == totalOffset
    }

    constructor (iovec: seq<seq<byte>>)
      requires iovec != []
      ensures Valid() && this.iovec == iovec && At() == Cursor(0, 0) && totalOffset == 0
    {
      this.iovec := iovec;
      current, currentOffset, totalOffset := 0, 0, 0;
      lens := seq(|iovec|, k requires 0 <= k < |iovec| => |iovec[k]|);
      totalSize := |Flat(iovec, |iovec|)|;
      new;
      FlatLength(iovec, lens, |iovec|);
    }

    lemma CursorInside()
      requires Valid()
      ensures totalOffset <= totalSize == |Bytes()|
      ensures currentOffset == lens[current] && !Finished() ==> current + 1 < |lens|
    {
      SumMonotone(lens, current + 1, |lens|);
      FlatLength(iovec, lens, |lens|);
    }

    /** Moves the cursor on. A caller that skips at most what is left of the current segment
        moves over at most one segment boundary. A cursor past the list stops here. */
    method Skip(skipCount: nat) returns (remaining: int)
      requires Framed() && CursorOk(lens, At())
      modifies this`current, this`currentOffset, this`totalOffset
      ensures Framed() && remaining == totalSize - totalOffset
      ensures match Skipped(lens, totalSize, old(At()), old(totalOffset), skipCount)
              case Some(r) => At() == r.0 && totalOffset == r.1
              case None => current == |lens|
      ensures old(Valid()) ==> Valid() && totalOffset == Min(old(totalOffset) + skipCount, totalSize)
      ensures old(Valid()) && skipCount <= lens[old(current)] - old(currentOffset) ==>
                At() == Advance(lens, old(At()), skipCount)
    {
      hide Skipped, Advance, Sum;
      if totalOffset == Sum(lens, current) + currentOffset {
        SkippedOn(lens, At(), skipCount);
      }
      var left := skipCount;
      ghost var goal := Skipped(lens, totalSize, At(), totalOffset, skipCount);
      var more := true;
      while more && current < |lens|
        invariant Framed() && current <= |lens| && (current < |lens| ==> currentOffset <= lens[current])
        invariant more ==> goal == Skipped(lens, totalSize, At(), totalOffset, left)
        invariant !more ==> goal == Some((At(), totalOffset))
        decreases more, |lens| - current
      {
        SkippedStep(lens, totalSize, At(), totalOffset, left);
        var skipCurrent := Min(|iovec[current]| - currentOffset, left);
        left := left - skipCurrent;
        totalOffset := totalOffset + skipCurrent;
        currentOffset := currentOffset + skipCurrent;
        if currentOffset == |iovec[current]| && !Finished() {
          current := current + 1;
          currentOffset := 0;
        }
        more := !(left == 0 || Finished());
      }
      if more {
        SkippedPast(lens, totalSize, At(), totalOffset, left);
      }
      remaining := totalSize - totalOffset;
    }

    /** iovec_iterator_set, after a fault in the current segment. */
    method Set(offset: nat)
      requires Framed() && current < |lens| && offset <= totalSize
      modifies this`current, this`currentOffset, this`totalOffset
      ensures Framed() && (Valid() && totalOffset == offset <==> Sum(lens, old(current)) == 0)
      ensures Valid() ==> totalOffset == offset
    {
      SetExact(lens, current, offset);
      SkippedDrift(lens, totalSize, Cursor(current, 0), 0, offset);
      currentOffset, totalOffset := 0, 0;
      var _ := Skip(offset);
    }

    /** Gathering equals one copy from the concatenation, empty segments included. Only the first
        accessible bytes can be read: a copy that needs more fails, and the cursor is back exactly if
        no byte lies before the segment with the first inaccessible one. */
    method CopyToBuffer(byteCount: nat, accessible: nat) returns (ok: bool, out: seq<byte>, ghost fault: nat)
      requires Valid()
      modifies this`current, this`currentOffset, this`totalOffset
      ensures old(totalOffset) <= totalSize == |Bytes()|
      ensures ok <==> Min(byteCount, totalSize - old(totalOffset)) <= accessible
      ensures ok ==> Valid() && old(totalOffset) <= totalOffset == Min(old(totalOffset) + byteCount, totalSize)
      ensures ok ==> out == Bytes()[old(totalOffset)..totalOffset]
      ensures !ok ==> FaultAt(lens, old(totalOffset) + accessible, fault)
      ensures !ok ==> (Valid() && totalOffset == old(totalOffset) <==> Sum(lens, fault) == 0)
    {
      hide Appended, Flat, Skipped, Advance;
      CursorInside();
      FlatLaid(iovec, lens);
      ghost var off, bytes := totalOffset, Bytes();
      var save := totalOffset;
      var remainingTotal: nat := Min(byteCount, totalSize - totalOffset);
      ghost var all := remainingTotal;
      ok, out, fault := true, [], 0;
      NoneAppended(bytes, off);
      var more := true;
      while more
        invariant Valid() && off <= totalOffset <= |bytes| == totalSize && bytes == Bytes()
        invariant totalOffset + remainingTotal == off + all
        invariant Appended(out, [], bytes, off, totalOffset - off) && totalOffset - off <= accessible
        invariant !more ==> remainingTotal == 0
        decreases more, |lens| - current
      {
        var copyCurrent := Min(|iovec[current]| - currentOffset, remainingTotal);
        if totalOffset - save + copyCurrent > accessible {
          fault := current;
          Set(save);
          return false, [], fault;
        }
        var out' := out + iovec[current][currentOffset..currentOffset + copyCurrent];
        AppendStep(out, [], iovec, bytes, lens, off, totalOffset - off, At(), copyCurrent, out');
        AdvanceOn(lens, At(), copyCurrent);
        out := out';
        var _ := Skip(copyCurrent);
        CursorInside();
        remainingTotal := remainingTotal - copyCurrent;
        more := !(Finished() || remainingTotal == 0);
      }
      AppendedIs(out, [], bytes, off, totalOffset - off);
    }

    /** Writes a chunk at the cursor, inside the current segment. */
    method Overwrite(chunk: seq<byte>)
      requires Valid() && currentOffset + |chunk| <= lens[current]
      modifies this`iovec
      ensures Valid() && totalOffset + |chunk| <= |old(Bytes())|
      ensures Bytes() == Splice(old(Bytes()), totalOffset, chunk)
    {
      FlatSplice(iovec, lens, current, |iovec|, currentOffset, chunk);
      iovec := iovec[current := Splice(iovec[current], currentOffset, chunk)];
    }

    /** Scattering equals one overwrite of the concatenation, with the same limit on the segments: the
        accessible part is written before a fault. */
    method CopyFromBuffer(buffer: seq<byte>, accessible: nat) returns (ok: bool, ghost fault: nat)
      requires Valid()
      modifies this
      ensures old(totalOffset) <= totalSize == |old(Bytes())|
      ensures var n := Min(|buffer|, totalSize - old(totalOffset));
              && (ok <==> n <= accessible)
              && Bytes() == Splice(old(Bytes()), old(totalOffset), buffer[..Min(n, accessible)])
      ensures ok ==> Valid() && totalOffset == Min(old(totalOffset) + |buffer|, totalSize)
      ensures !ok ==> FaultAt(lens, old(totalOffset) + accessible, fault)
      ensures !ok ==> (Valid() && totalOffset == old(totalOffset) <==> Sum(lens, fault) == 0)
    {
      hide Flat, Splice, Skipped, Advance, HasLengths;
      CursorInside();
      ghost var off, was := totalOffset, Bytes();
      var save := totalOffset;
      var remainingTotal: nat := Min(|buffer|, totalSize - totalOffset);
      ghost var all := remainingTotal;
      var totalDone: nat := 0;
      ok, fault := true, 0;
      SpliceNothing(was, off);
      var more := true;
      while more
        invariant Valid() && totalOffset == off + totalDone && |was| == totalSize
        invariant totalDone + remainingTotal == all && totalDone <= accessible
        invariant Bytes() == Splice(was, off, buffer[..totalDone])
        invariant !more ==> remainingTotal == 0
        decreases more, |lens| - current
      {
        var copyCurrent := Min(lens[current] - currentOffset, remainingTotal);
        var copied := Min(copyCurrent, accessible - totalDone);
        CursorInside();
        SpliceOn(was, off, buffer, totalDone, copied);
        Overwrite(buffer[totalDone..totalDone + copied]);
        if copied < copyCurrent {
          fault := current;
          Set(save);
          return false, fault;
        }
        AdvanceOn(lens, At(), copyCurrent);
        var _ := Skip(copyCurrent);
        CursorInside();
        totalDone := totalDone + copyCurrent;
        remainingTotal := remainingTotal - copyCurrent;
        more := !(Finished() || remainingTotal == 0);
      }
    }

    /** Offers the next copyCurrent bytes of the current segment to a ring and, if it takes any,
        moves past all of them. */
    method WriteSegment(ring: RingBuffer, copyCurrent: nat, accessible: nat) returns (r: CopyResult)
      requires Valid() && ring.Valid() && copyCurrent <= lens[current] - currentOffset
      modifies this`current, this`currentOffset, this`totalOffset, ring`write, ring.data
      ensures Valid() && ring.Valid() && ring.read == old(ring.read)
      ensures var n := Min(copyCurrent, old(ring.FreeSpace()));
              && r == (if n <= accessible then Copied(n) else CopyFailed)
              && (r == Copied(n) ==>
                    var part := iovec[old(current)][old(currentOffset)..old(currentOffset) + n];
                    ring.Contents() == old(ring.Contents()) + part)
      ensures r == Copied(0) || r.CopyFailed? ==> At() == old(At()) && ring.Contents() == old(ring.Contents())
      ensures r.Copied? && r.count != 0 ==> At() == Advance(lens, old(At()), copyCurrent)
    {
      var chunk := iovec[current][currentOffset..currentOffset + copyCurrent];
      r := ring.Write(chunk, accessible);
      ghost var n := Min(copyCurrent, old(ring.FreeSpace()));
      assert chunk[..n] == iovec[current][currentOffset..currentOffset + n];
      if r.Copied? && r.count != 0 {
        var _ := Skip(copyCurrent);
      }
    }

    /** A gather from start, which began at offset off with was in the ring, has taken done of want
        bytes. */
    ghost predicate Gathering(ring: RingBuffer, was: seq<byte>, bytes: seq<byte>, start: Cursor, off: nat, done: nat,
                              want: nat)
      requires Valid() && ring.Valid() && CursorOk(lens, start) && done <= want
      reads this, ring, ring.data
    {
      && Laid(bytes, iovec, lens) && off == Sum(lens, start.current) + start.offset && |was| <= ring.data.Length
      && GatheredSoFar(ring.Contents(), was, ring.data.Length, bytes, lens, start, At(), done, want - done)
      && totalOffset == EndOfTransfer(lens, off, done, want)
    }

    /** One round of the loop of iovec_iterator_write_to_ringbuffer. */
    method GatherOne(ring: RingBuffer, done: nat, want: nat, accessible: nat, ghost was: seq<byte>,
                     ghost bytes: seq<byte>,
                     ghost start: Cursor, ghost off: nat) returns (r: CopyResult)
      requires Valid() && ring.Valid() && CursorOk(lens, start) && done <= want && done <= accessible
      requires Gathering(ring, was, bytes, start, off, done, want)
      modifies this`current, this`currentOffset, this`totalOffset, ring`write, ring.data
      ensures Valid() && ring.Valid()
      ensures r.CopyFailed? ==> Stuck(lens, start, off, current, accessible, want, ring.data.Length - |was|)
      ensures r.CopyFailed? || r.count == 0 ==> Gathering(ring, was, bytes, start, off, done, want)
      ensures r == Copied(0) ==> ring.FreeSpace() == 0 || done == want || Reach(lens, current, currentOffset) == 0
      ensures r.Copied? ==>
                done + r.count <= Min(want, accessible) && ring.FreeSpace() == old(ring.FreeSpace()) - r.count
      ensures r.Copied? ==> Gathering(ring, was, bytes, start, off, done + r.count, want)
    {
      hide GatheredSoFar, Laid, Flat, Sum, Reach, EndOfTransfer, Window, Advance, Stuck;
      ghost var contents, at := ring.Contents(), At();
      NothingLeft(lens, at);
      var copyCurrent := Min(|iovec[current]| - currentOffset, want - done);
      ghost var n := Min(copyCurrent, ring.FreeSpace());
      if n != 0 {
        GatherRound(contents, was, ring.data.Length, iovec, bytes, lens, start, at, off, done, want - done, n,
                    accessible);
      }
      r := WriteSegment(ring, copyCurrent, accessible - done);
    }

    /** Its loop. It stops at a segment whose bytes cannot all be read, with what was gathered before it
        in the ring. */
    method Gather(ring: RingBuffer, byteCount: nat, accessible: nat) returns (failed: bool, totalDone: nat)
      requires Valid() && ring.Valid()
      modifies this`current, this`currentOffset, this`totalOffset, ring`write, ring.data
      ensures Valid() && ring.Valid() && old(totalOffset) <= totalSize == |Bytes()|
      ensures var n := Min(byteCount, Min(old(ring.FreeSpace()), Reach(lens, old(current), old(currentOffset))));
              && (failed <==> accessible < n) && (!failed ==> totalDone == n)
      ensures |ring.Contents()| == |old(ring.Contents())| + totalDone
      ensures ring.Contents()[..|old(ring.Contents())|] == old(ring.Contents())
      ensures failed ==> FaultAt(lens, old(totalOffset) + accessible, current)
      ensures !failed ==>
                && old(totalOffset) + totalDone <= |Bytes()|
                && ring.Contents() == old(ring.Contents()) + Bytes()[old(totalOffset)..old(totalOffset) + totalDone]
                && totalOffset == EndOfTransfer(lens, old(totalOffset), totalDone,
                                                Min(byteCount, totalSize - old(totalOffset)))
    {
      hide GatheredSoFar, Laid, Flat, Sum, Reach, EndOfTransfer, Window, Stuck, FaultAt, HasLengths;
      FlatLaid(iovec, lens);
      CursorInside();
      ghost var off, start, bytes, was, size := totalOffset, At(), Bytes(), ring.Contents(), ring.data.Length;
      var want := Min(byteCount, totalSize - totalOffset);
      failed, totalDone := false, 0;
      NoTransfer(lens, off, want);
      GatherStart(was, size, bytes, lens, start, want);
      var more := true;
      while more
        invariant Valid() && ring.Valid() && totalDone <= want && totalDone <= accessible
        invariant Gathering(ring, was, bytes, start, off, totalDone, want)
        invariant failed ==> !more && Stuck(lens, start, off, current, accessible, want, size - |was|)
        invariant !more && !failed ==>
                    ring.FreeSpace() == 0 || totalDone == want || Reach(lens, current, currentOffset) == 0
        decreases more, ring.FreeSpace()
      {
        var r := GatherOne(ring, totalDone, want, accessible, was, bytes, start, off);
        failed := r.CopyFailed?;
        more := r.Copied? && r.count != 0;
        if more {
          totalDone := totalDone + r.count;
          NothingAtEnd(lens, At());
          more := !(totalDone == byteCount || Finished());
        }
      }
      GatherUndo(ring.Contents(), was, size, bytes, lens, start, At(), totalDone, want - totalDone);
      if failed {
        StuckMeans(lens, start, off, current, accessible, want, size - |was|, byteCount);
      } else {
        GatherEnd(ring.Contents(), was, size, bytes, lens, start, At(), totalDone, want - totalDone, want, byteCount);
      }
    }

    /** iovec_iterator_write_to_ringbuffer. The cursor ends where the transfer does, except that a
        segment which does not fit is left as if all that was wanted of it had been taken. Where a byte
        cannot be read, the ring is as before, and the cursor as in CopyToBuffer. */
    method WriteToRing(ring: RingBuffer, byteCount: nat, accessible: nat) returns (r: CopyResult, ghost fault: nat)
      requires Valid() && ring.Valid()
      modifies this`current, this`currentOffset, this`totalOffset, ring`write, ring.data
      ensures ring.Valid() && old(totalOffset) <= totalSize == |Bytes()|
      ensures var n := Min(byteCount, Min(old(ring.FreeSpace()), Reach(lens, old(current), old(currentOffset))));
              r == if n <= accessible then Copied(n) else CopyFailed
      ensures r.Copied? ==>
                && Valid() && old(totalOffset) + r.count <= |Bytes()|
                && ring.Contents() == old(ring.Contents()) + Bytes()[old(totalOffset)..old(totalOffset) + r.count]
                && totalOffset == EndOfTransfer(lens, old(totalOffset), r.count,
                                                Min(byteCount, totalSize - old(totalOffset)))
      ensures r.CopyFailed? ==>
                && ring.Contents() == old(ring.Contents()) && FaultAt(lens, old(totalOffset) + accessible, fault)
                && (Valid() && totalOffset == old(totalOffset) <==> Sum(lens, fault) == 0)
    {
      hide Flat, Sum, Reach, EndOfTransfer, Window, FaultAt;
      var save := totalOffset;
      CursorInside();
      var failed, totalDone := Gather(ring, byteCount, accessible);
      r, fault := Copied(totalDone), current;
      if failed {
        var _ := ring.Remove(totalDone);
        Set(save);
        r := CopyFailed;
      }
    }

    /** Copies buffered bytes from an offset into the current segment and, if there are any, moves past
        the copyCurrent bytes that were asked for. */
    method ReadSegment(ring: RingBuffer, offset: nat, copyCurrent: nat, accessible: nat)
      returns (r: CopyResult, ghost got: seq<byte>)
      requires Valid() && ring.Valid() && copyCurrent <= lens[current] - currentOffset
      modifies this`iovec, this`current, this`currentOffset, this`totalOffset
      ensures Valid()
      ensures var want := Peeked(ring.Contents(), ring.data.Length, offset, copyCurrent);
              && r == (if |want| <= accessible then Copied(|want|) else CopyFailed)
              && got == want[..Min(|want|, accessible)]
      ensures old(totalOffset) + |got| <= |old(Bytes())| && Bytes() == Splice(old(Bytes()), old(totalOffset), got)
      ensures r == Copied(0) ==> At() == old(At()) && Bytes() == old(Bytes())
      ensures r.CopyFailed? ==> At() == old(At())
      ensures r.Copied? && r.count != 0 ==> At() == Advance(lens, old(At()), copyCurrent)
    {
      hide Skipped, Splice, Peeked;
      var out;
      r, out := ring.Peek(offset, copyCurrent, accessible);
      got := out;
      Overwrite(out);
      SpliceNothing(old(Bytes()), totalOffset);
      if r.Copied? && r.count != 0 {
        var _ := Skip(copyCurrent);
      }
    }

    /** A scatter from start, which began at offset off of memory was, has delivered out of want
        bytes. */
    ghost predicate Scattering(ring: RingBuffer, was: seq<byte>, out: seq<byte>, start: Cursor, off: nat, want: nat)
      requires Valid() && ring.Valid() && CursorOk(lens, start) && |out| <= want
      reads this, ring, ring.data
    {
      && off == Sum(lens, start.current) + start.offset && off + |out| <= |was| == totalSize
      && Bytes() == Splice(was, off, out)
      && ScatteredSoFar(out, ring.Contents(), ring.FreeSpace(), lens, start, At(), want - |out|)
      && totalOffset == EndOfTransfer(lens, off, |out|, want)
    }

    /** One round of the loop of iovec_iterator_peek_from_ringbuffer: it peeks at the number of bytes
        delivered so far. */
    method ScatterOne(ring: RingBuffer, done: nat, want: nat, accessible: nat, ghost was: seq<byte>,
                      ghost out: seq<byte>,
                      ghost start: Cursor, ghost off: nat, ghost byteCount: nat)
      returns (r: CopyResult, ghost out': seq<byte>)
      requires Valid() && ring.Valid() && CursorOk(lens, start) && done == |out| <= want <= byteCount
      requires done <= accessible
      requires Scattering(ring, was, out, start, off, want)
      modifies this`iovec, this`current, this`currentOffset, this`totalOffset
      ensures Valid() && off + |out'| <= |was| && Bytes() == Splice(was, off, out')
      ensures r.CopyFailed? ==>
                && Stuck(lens, start, off, current, accessible, want, |ring.Contents()|)
                && IsScattered(out', ring.Contents(), ring.FreeSpace(), lens, start, Min(byteCount, accessible))
      ensures r == Copied(0) ==> |out| >= |ring.Contents()| || done == want || Reach(lens, current, currentOffset) == 0
      ensures r.Copied? ==>
                |out'| == done + r.count <= Min(want, accessible) && Scattering(ring, was, out', start, off, want)
      ensures r.Copied? ==> |out'| <= |ring.Contents()| || r.count == 0
    {
      hide ScatteredSoFar, IsScattered, Flat, Sum, Reach, Origin, EndOfTransfer, Splice, Peeked, Window, Advance,
           Stuck;
      ghost var contents, at := ring.Contents(), At();
      NothingLeft(lens, at);
      var copyCurrent := Min(|iovec[current]| - currentOffset, want - done);
      ghost var all := Peeked(contents, ring.data.Length, done, copyCurrent);
      if all != [] {
        ScatterRound(out, all, contents, ring.data.Length, lens, start, at, off, want - done, want, byteCount,
                     accessible);
      }
      ghost var got;
      r, got := ReadSegment(ring, done, copyCurrent, accessible - done);
      out' := out;
      if all != [] {
        SpliceJoin(was, off, out, got);
        out' := out + got;
        assert all[..|all|] == all;
      }
    }

    /** Its loop. It stops at a segment that cannot be filled, with what comes before that byte
        written. */
    method Scatter(ring: RingBuffer, byteCount: nat, accessible: nat)
      returns (failed: bool, totalDone: nat, ghost out: seq<byte>)
      requires Valid() && ring.Valid()
      modifies this`iovec, this`current, this`currentOffset, this`totalOffset
      ensures Valid() && old(totalOffset) <= totalSize
      ensures var n := Min(byteCount, Min(|ring.Contents()|, Reach(lens, old(current), old(currentOffset))));
              && (failed <==> accessible < n) && (!failed ==> totalDone == n == |out|)
      ensures IsScattered(out, ring.Contents(), ring.FreeSpace(), lens, old(At()), Min(byteCount, accessible))
      ensures old(totalOffset) + |out| <= |old(Bytes())| && Bytes() == Splice(old(Bytes()), old(totalOffset), out)
      ensures failed ==> FaultAt(lens, old(totalOffset) + accessible, current)
      ensures !failed ==>
                totalOffset == EndOfTransfer(lens, old(totalOffset), totalDone,
                                             Min(byteCount, totalSize - old(totalOffset)))
    {
      hide ScatteredSoFar, IsScattered, Flat, Sum, Reach, Origin, EndOfTransfer, Splice, Window, Stuck, FaultAt;
      CursorInside();
      ghost var off, start, was, contents, free := totalOffset, At(), Bytes(), ring.Contents(), ring.FreeSpace();
      var want := Min(byteCount, totalSize - totalOffset);
      failed, totalDone, out := false, 0, [];
      SpliceNothing(was, off);
      NoTransfer(lens, off, want);
      ScatterStart(contents, free, lens, start, want);
      var more := true;
      while more
        invariant Valid() && totalDone <= want && totalDone <= accessible
        invariant off + |out| <= |was| && Bytes() == Splice(was, off, out)
        invariant !failed ==> totalDone == |out| && Scattering(ring, was, out, start, off, want)
        invariant failed ==> !more && Stuck(lens, start, off, current, accessible, want, |contents|)
        invariant failed ==> IsScattered(out, contents, free, lens, start, Min(byteCount, accessible))
        invariant !more && !failed ==>
                    |out| >= |contents| || totalDone == want || Reach(lens, current, currentOffset) == 0
        decreases more, |contents| - |out|
      {
        var r;
        r, out := ScatterOne(ring, totalDone, want, accessible, was, out, start, off, byteCount);
        failed := r.CopyFailed?;
        more := r.Copied? && r.count != 0;
        if more {
          totalDone := totalDone + r.count;
          NothingAtEnd(lens, At());
          more := !(totalDone == byteCount || Finished());
        }
      }
      if failed {
        StuckMeans(lens, start, off, current, accessible, want, |contents|, byteCount);
      } else {
        ScatterEnd(out, contents, free, lens, start, At(), want - totalDone, want, byteCount, accessible);
      }
    }

    /** iovec_iterator_read_from_ringbuffer: what was delivered overwrites the concatenation from the
        cursor on, and leaves the ring. Where a byte cannot be written, those before it have been, and
        nothing leaves the ring. */
    method ReadFromRing(ring: RingBuffer, byteCount: nat, accessible: nat)
      returns (r: CopyResult, ghost out: seq<byte>, ghost fault: nat)
      requires Valid() && ring.Valid()
      modifies this`iovec, this`current, this`currentOffset, this`totalOffset, ring`read
      ensures ring.Valid() && old(totalOffset) <= totalSize
      ensures var n := Min(byteCount, Min(|old(ring.Contents())|, Reach(lens, old(current), old(currentOffset))));
              r == if n <= accessible then Copied(n) else CopyFailed
      ensures IsScattered(out, old(ring.Contents()), old(ring.FreeSpace()), lens, old(At()), Min(byteCount, accessible))
      ensures old(totalOffset) + |out| <= |old(Bytes())| && Bytes() == Splice(old(Bytes()), old(totalOffset), out)
      ensures r.Copied? ==>
                && Valid() && |out| == r.count <= |old(ring.Contents())|
                && ring.Contents() == old(ring.Contents())[r.count..]
                && totalOffset == EndOfTransfer(lens, old(totalOffset), r.count,
                                                Min(byteCount, totalSize - old(totalOffset)))
      ensures r.CopyFailed? ==>
                && ring.Contents() == old(ring.Contents()) && FaultAt(lens, old(totalOffset) + accessible, fault)
                && (Valid() && totalOffset == old(totalOffset) <==> Sum(lens, fault) == 0)
    {
      hide IsScattered, Flat, Sum, Reach, EndOfTransfer, Splice, Window, FaultAt;
      var save := totalOffset;
      CursorInside();
      var failed, totalDone;
      failed, totalDone, out := Scatter(ring, byteCount, accessible);
      fault := current;
      if failed {
        Set(save);
        return CopyFailed, out, fault;
      }
      var _ := ring.Truncate(totalDone);
      r := Copied(totalDone);
    }
  }

  /** A gather from start that has taken done bytes, stands at a cursor and wants some more. */
  ghost predicate GatheredSoFar(contents': seq<byte>, contents: seq<byte>, size: nat, flat: seq<byte>, lens: seq<nat>,
                        start: Cursor, at: Cursor, done: nat, want: nat)
    requires CursorOk(lens, start)
    requires CursorOk(lens, at)
  {
    var from := Sum(lens, start.current) + start.offset;
    && from + done <= |flat| && done <= Reach(lens, start.current, start.offset)
    && Appended(contents', contents, flat, from, done) && |contents'| <= size
    && (|contents'| < size && 0 < want ==>
          && Sum(lens, at.current) + at.offset == from + done
          && done + Reach(lens, at.current, at.offset) == Reach(lens, start.current, start.offset))
  }

  /** A transfer of byteCount bytes wants that many, or all that are left if these are fewer. */
  ghost predicate IsWanted(lens: seq<nat>, start: Cursor, byteCount: nat, total: nat)
    requires CursorOk(lens, start)
  {
    var end := Sum(lens, start.current) + start.offset + total;
    total <= byteCount && end <= Sum(lens, |lens|) && (total == byteCount || end == Sum(lens, |lens|))
  }

  /** Segment k holds byte p of the concatenation. */
  ghost predicate FaultAt(lens: seq<nat>, p: nat, k: nat) {
    k < |lens| && Sum(lens, k) <= p < Sum(lens, k + 1)
  }

  lemma NoneAppended(flat: seq<byte>, from: nat)
    requires from <= |flat|
    ensures Appended([], [], flat, from, 0)
  {}

  /** An advance either stays with room in the segment or leaves it. */
  lemma AdvanceOn(lens: seq<nat>, at: Cursor, n: nat)
    requires CursorOk(lens, at) && at.offset + n <= lens[at.current]
    ensures var at' := Advance(lens, at, n);
            at'.current > at.current || (at'.current == at.current && at'.offset == at.offset + n)
    ensures at.offset + n == lens[at.current] && Sum(lens, at.current) + at.offset + n < Sum(lens, |lens|) ==>
              Advance(lens, at, n).current == at.current + 1
  {}

  /** contents' is contents followed by n bytes of flat. */
  ghost predicate Appended(contents': seq<byte>, contents: seq<byte>, flat: seq<byte>, from: nat, n: nat)
    requires from + n <= |flat|
  {
    && |contents'| == |contents| + n
    && (forall i :: 0 <= i < |contents| ==> contents'[i] == contents[i])
    && (forall i :: |contents| <= i < |contents'| ==> contents'[i] == flat[from + (i - |contents|)])
  }

  /** flat is the concatenation of the segments, byte by byte. */
  ghost predicate Laid(flat: seq<byte>, segs: seq<seq<byte>>, lens: seq<nat>) {
    && HasLengths(segs, lens) && |flat| == Sum(lens, |lens|)
    && forall k, o :: 0 <= k < |segs| && 0 <= o < lens[k] ==> LaidAt(flat, segs, lens, k, o)
  }

  ghost predicate LaidAt(flat: seq<byte>, segs: seq<seq<byte>>, lens: seq<nat>, k: nat, o: nat)
    requires k < |segs| == |lens| && o < |segs[k]|
  {
    Sum(lens, k) + o < |flat| && flat[Sum(lens, k) + o] == segs[k][o]
  }

  lemma FlatLaid(segs: seq<seq<byte>>, lens: seq<nat>)
    requires HasLengths(segs, lens)
    ensures Laid(Flat(segs, |segs|), segs, lens)
  {
    FlatLength(segs, lens, |segs|);
    forall k, o | 0 <= k < |segs| && 0 <= o < lens[k]
      ensures LaidAt(Flat(segs, |segs|), segs, lens, k, o)
    {
      FlatAt(segs, lens, k, |segs|, o, 1);
      assert segs[k][o..o + 1][0] == segs[k][o];
    }
  }

  lemma GatherStep(contents': seq<byte>, contents: seq<byte>, size: nat, segs: seq<seq<byte>>, flat: seq<byte>,
                 lens: seq<nat>,
                 start: Cursor, at: Cursor, done: nat, want: nat, n: nat, next: seq<byte>, at': Cursor)
    requires Laid(flat, segs, lens)
    requires CursorOk(lens, start)
    requires at.current < |lens| && at.offset < lens[at.current]
    requires GatheredSoFar(contents', contents, size, flat, lens, start, at, done, want)
    requires 0 < want && |contents'| < size
    requires n == Min(Min(lens[at.current] - at.offset, want), size - |contents'|)
    requires next == contents' + segs[at.current][at.offset..at.offset + n]
    requires at' == Advance(lens, at, Min(lens[at.current] - at.offset, want))
    ensures Sum(lens, at.current) + at.offset == Sum(lens, start.current) + start.offset + done
    ensures GatheredSoFar(next, contents, size, flat, lens, start, at', done + n, want - n)
  {
    hide Appended, LaidAt, Origin, Reach;
    ReachStep(lens, 0, at, Min(lens[at.current] - at.offset, want), 0);
    AppendStep(contents', contents, segs, flat, lens, Sum(lens, start.current) + start.offset, done, at, n, next);
  }

  /** Copying n bytes at a cursor that stands done bytes into the transfer. */
  lemma AppendStep(contents': seq<byte>, contents: seq<byte>, segs: seq<seq<byte>>, flat: seq<byte>, lens: seq<nat>,
                   from: nat, done: nat, at: Cursor, n: nat, next: seq<byte>)
    requires Laid(flat, segs, lens) && at.current < |lens| && at.offset + n <= lens[at.current]
    requires Sum(lens, at.current) + at.offset == from + done <= |flat|
    requires Appended(contents', contents, flat, from, done)
    requires next == contents' + segs[at.current][at.offset..at.offset + n]
    ensures from + (done + n) <= |flat| && Appended(next, contents, flat, from, done + n)
  {
    SumMonotone(lens, at.current + 1, |lens|);
    forall i | |contents'| <= i < |next|
      ensures next[i] == flat[from + (i - |contents|)]
    {
      assert LaidAt(flat, segs, lens, at.current, at.offset + (i - |contents'|));
    }
  }

  lemma GatherStart(contents: seq<byte>, size: nat, flat: seq<byte>, lens: seq<nat>, start: Cursor, want: nat)
    requires start.current < |lens| && start.offset <= lens[start.current] && |contents| <= size
    requires Sum(lens, start.current) + start.offset <= |flat|
    ensures GatheredSoFar(contents, contents, size, flat, lens, start, start, 0, want)
  {}

  lemma NothingLeft(lens: seq<nat>, at: Cursor)
    requires CursorOk(lens, at)
    ensures at.offset == lens[at.current] ==> Reach(lens, at.current, at.offset) == 0
  {}

  lemma NothingAtEnd(lens: seq<nat>, at: Cursor)
    requires CursorOk(lens, at)
    ensures Sum(lens, at.current) + at.offset == Sum(lens, |lens|) ==> Reach(lens, at.current, at.offset) == 0
  {
    ReachBound(lens, at.current, at.offset);
  }

  lemma NoTransfer(lens: seq<nat>, off: nat, want: nat)
    ensures EndOfTransfer(lens, off, 0, want) == off
  {}

  /** One segment of a transfer moves the cursor to the end of the transfer so far. */
  lemma TransferStep(lens: seq<nat>, at: Cursor, off: nat, done: nat, want: nat, n: nat)
    requires at.current < |lens| && at.offset < lens[at.current]
    requires Sum(lens, at.current) + at.offset == off + done
    requires 0 < n <= Min(lens[at.current] - at.offset, want)
    ensures var at' := Advance(lens, at, Min(lens[at.current] - at.offset, want));
            Sum(lens, at'.current) + at'.offset == EndOfTransfer(lens, off, done + n, done + want)
    ensures off + done + n <= Sum(lens, |lens|)
  {
    SumMonotone(lens, at.current + 1, |lens|);
    EndAtIs(lens, 0, at.current, off + done + n);
  }

  lemma GatherEnd(contents': seq<byte>, contents: seq<byte>, size: nat, flat: seq<byte>, lens: seq<nat>, start: Cursor,
                  at: Cursor, done: nat, want: nat, total: nat, byteCount: nat)
    requires CursorOk(lens, start) && CursorOk(lens, at) && |contents| <= size
    requires GatheredSoFar(contents', contents, size, flat, lens, start, at, done, want) && done + want == total
    requires IsWanted(lens, start, byteCount, total)
    requires |contents'| == size || want == 0 || Reach(lens, at.current, at.offset) == 0
    ensures var from := Sum(lens, start.current) + start.offset;
            && done == Min(byteCount, Min(size - |contents|, Reach(lens, start.current, start.offset)))
            && from + done <= |flat| && contents' == contents + flat[from..from + done]
  {
    ReachBound(lens, start.current, start.offset);
    AppendedIs(contents', contents, flat, Sum(lens, start.current) + start.offset, done);
  }

  /** Taking back what a gather has appended. */
  lemma GatherUndo(contents': seq<byte>, contents: seq<byte>, size: nat, flat: seq<byte>, lens: seq<nat>, start: Cursor,
                   at: Cursor, done: nat, want: nat)
    requires CursorOk(lens, start) && CursorOk(lens, at)
    requires GatheredSoFar(contents', contents, size, flat, lens, start, at, done, want)
    ensures |contents'| == |contents| + done && contents'[..|contents|] == contents
  {}

  /** A transfer that stands at segment k and cannot go on: the first inaccessible byte is there, and
      the whole transfer needs it. */
  ghost predicate Stuck(lens: seq<nat>, start: Cursor, off: nat, k: nat, accessible: nat, want: nat, room: nat)
    requires CursorOk(lens, start)
  {
    FaultAt(lens, off + accessible, k) && accessible < Min(want, Min(room, Reach(lens, start.current, start.offset)))
  }

  lemma StuckMeans(lens: seq<nat>, start: Cursor, off: nat, k: nat, accessible: nat, want: nat, room: nat,
                   byteCount: nat)
    requires CursorOk(lens, start) && Stuck(lens, start, off, k, accessible, want, room) && want <= byteCount
    ensures FaultAt(lens, off + accessible, k)
    ensures accessible < Min(byteCount, Min(room, Reach(lens, start.current, start.offset)))
  {}

  /** One segment of a gather: what it appends, where it leaves the cursor, and what a fault in it
      means. */
  lemma GatherRound(contents': seq<byte>, contents: seq<byte>, size: nat, segs: seq<seq<byte>>, flat: seq<byte>,
                    lens: seq<nat>, start: Cursor, at: Cursor, off: nat, done: nat, want: nat, n: nat, accessible: nat)
    requires Laid(flat, segs, lens) && CursorOk(lens, start) && CursorOk(lens, at) && at.offset < lens[at.current]
    requires GatheredSoFar(contents', contents, size, flat, lens, start, at, done, want)
    requires off == Sum(lens, start.current) + start.offset && |contents| <= size
    requires 0 < want && |contents'| < size && done <= accessible
    requires 0 < n == Min(Min(lens[at.current] - at.offset, want), size - |contents'|)
    ensures var at' := Advance(lens, at, Min(lens[at.current] - at.offset, want));
            && GatheredSoFar(contents' + segs[at.current][at.offset..at.offset + n], contents, size, flat, lens, start,
                             at', done + n, want - n)
            && Sum(lens, at'.current) + at'.offset == EndOfTransfer(lens, off, done + n, done + want)
    ensures accessible < done + n ==> Stuck(lens, start, off, at.current, accessible, done + want, size - |contents|)
  {
    hide GatheredSoFar, LaidAt, EndOfTransfer, Advance, Reach;
    var next := contents' + segs[at.current][at.offset..at.offset + n];
    var at' := Advance(lens, at, Min(lens[at.current] - at.offset, want));
    GatherStep(contents', contents, size, segs, flat, lens, start, at, done, want, n, next, at');
    TransferStep(lens, at, off, done, want, n);
    GatherBound(next, contents, size, flat, lens, start, at', done + n, want - n);
  }

  lemma GatherBound(contents': seq<byte>, contents: seq<byte>, size: nat, flat: seq<byte>, lens: seq<nat>,
                    start: Cursor,
                    at: Cursor, done: nat, want: nat)
    requires CursorOk(lens, start) && CursorOk(lens, at) && |contents| <= size
    requires GatheredSoFar(contents', contents, size, flat, lens, start, at, done, want)
    ensures done <= Min(size - |contents|, Reach(lens, start.current, start.offset))
  {}

  lemma AppendedIs(contents': seq<byte>, contents: seq<byte>, flat: seq<byte>, from: nat, n: nat)
    requires from + n <= |flat| && Appended(contents', contents, flat, from, n)
    ensures contents' == contents + flat[from..from + n]
  {
  }

  /** What a scatter delivers: as many bytes as are asked for, buffered, and before the first
      segment with nothing left, each from its origin. */
  ghost predicate IsScattered(out: seq<byte>, contents: seq<byte>, free: nat, lens: seq<nat>, start: Cursor, want: nat)
    requires CursorOk(lens, start)
  {
    && |out| == Min(want, Min(|contents|, Reach(lens, start.current, start.offset)))
    && forall i :: 0 <= i < |out| ==> FromOrigin(out, contents, free, lens, start, i)
  }

  ghost predicate FromOrigin(out: seq<byte>, contents: seq<byte>, free: nat, lens: seq<nat>, start: Cursor, i: nat)
    requires start.current < |lens| && start.offset <= lens[start.current] && i < |out|
  {
    var o := Origin(lens, free, start.current, start.offset, 0, i);
    0 <= o < |contents| && out[i] == contents[o]
  }

  /** A scatter from start that has delivered out, stands at a cursor and wants some more. */
  ghost predicate ScatteredSoFar(out: seq<byte>, contents: seq<byte>, free: nat, lens: seq<nat>, start: Cursor,
                            at: Cursor, want: nat)
    requires CursorOk(lens, start)
    requires CursorOk(lens, at)
  {
    && |out| <= Min(|contents|, Reach(lens, start.current, start.offset))
    && (forall i :: 0 <= i < |out| ==> FromOrigin(out, contents, free, lens, start, i))
    && (|out| < |contents| && 0 < want ==>
          && Sum(lens, at.current) + at.offset == Sum(lens, start.current) + start.offset + |out|
          && |out| + Reach(lens, at.current, at.offset) == Reach(lens, start.current, start.offset)
          && forall i :: |out| <= i ==>
               Origin(lens, free, start.current, start.offset, 0, i)
               == Origin(lens, free, at.current, at.offset, |out|, i))
  }

  lemma ScatterStep(out: seq<byte>, contents: seq<byte>, size: nat, lens: seq<nat>, start: Cursor, at: Cursor,
                    want: nat,
                    got: seq<byte>, out': seq<byte>, at': Cursor)
    requires CursorOk(lens, start)
    requires at.current < |lens| && at.offset <= lens[at.current] && |contents| <= size
    requires ScatteredSoFar(out, contents, size - |contents|, lens, start, at, want)
    requires 0 < want && at.offset < lens[at.current] && |out| < |contents|
    requires got == Peeked(contents, size, |out|, Min(lens[at.current] - at.offset, want)) && out' == out + got
    requires at' == Advance(lens, at, Min(lens[at.current] - at.offset, want))
    ensures Sum(lens, at.current) + at.offset == Sum(lens, start.current) + start.offset + |out|
    ensures ScatteredSoFar(out', contents, size - |contents|, lens, start, at', want - |got|)
  {
    hide Reach, Origin, Peeked, FromOrigin;
    var free := size - |contents|;
    ReachStep(lens, free, at, Min(lens[at.current] - at.offset, want), |out|);
    forall i | 0 <= i < |out'|
      ensures FromOrigin(out', contents, free, lens, start, i)
    {
      if i < |out| {
        StillFrom(out, got, contents, free, lens, start, i);
      } else {
        ScatterPart(out, contents, size, lens, start, at, want, got, i);
      }
    }
  }

  lemma StillFrom(out: seq<byte>, got: seq<byte>, contents: seq<byte>, free: nat, lens: seq<nat>, start: Cursor, i: nat)
    requires CursorOk(lens, start) && i < |out| && FromOrigin(out, contents, free, lens, start, i)
    ensures FromOrigin(out + got, contents, free, lens, start, i)
  {}

  /** The bytes of a peek come from their origins. */
  lemma ScatterPart(out: seq<byte>, contents: seq<byte>, size: nat, lens: seq<nat>, start: Cursor, at: Cursor,
                    want: nat, got: seq<byte>, i: nat)
    requires CursorOk(lens, start) && CursorOk(lens, at) && |contents| <= size
    requires ScatteredSoFar(out, contents, size - |contents|, lens, start, at, want)
    requires 0 < want && |out| < |contents| && |out| <= i < |out + got|
    requires got == Peeked(contents, size, |out|, Min(lens[at.current] - at.offset, want))
    ensures FromOrigin(out + got, contents, size - |contents|, lens, start, i)
  {
    hide Reach, Sum;
    assert Origin(lens, size - |contents|, start.current, start.offset, 0, i)
        == Origin(lens, size - |contents|, at.current, at.offset, |out|, i);
  }

  lemma ScatterStart(contents: seq<byte>, free: nat, lens: seq<nat>, start: Cursor, want: nat)
    requires CursorOk(lens, start)
    ensures ScatteredSoFar([], contents, free, lens, start, start, want)
  {}

  lemma ScatterEnd(out: seq<byte>, contents: seq<byte>, free: nat, lens: seq<nat>, start: Cursor, at: Cursor, want: nat,
                   total: nat, byteCount: nat, accessible: nat)
    requires CursorOk(lens, start) && CursorOk(lens, at) && |out| <= accessible
    requires ScatteredSoFar(out, contents, free, lens, start, at, want) && |out| + want == total
    requires IsWanted(lens, start, byteCount, total)
    requires |out| >= |contents| || want == 0 || Reach(lens, at.current, at.offset) == 0
    ensures |out| <= |contents| && IsScattered(out, contents, free, lens, start, Min(byteCount, accessible))
    ensures |out| == Min(byteCount, Min(|contents|, Reach(lens, start.current, start.offset)))
  {
    ReachBound(lens, start.current, start.offset);
  }

  /** One segment of a scatter: what it delivers, where it leaves the cursor, and what a fault in it
      means. */
  lemma ScatterRound(out: seq<byte>, all: seq<byte>, contents: seq<byte>, size: nat, lens: seq<nat>, start: Cursor,
                     at: Cursor,
                     off: nat, want: nat, total: nat, byteCount: nat, accessible: nat)
    requires CursorOk(lens, start) && CursorOk(lens, at) && at.offset < lens[at.current] && |contents| <= size
    requires ScatteredSoFar(out, contents, size - |contents|, lens, start, at, want) && |out| <= accessible
    requires off == Sum(lens, start.current) + start.offset && |out| + want == total <= byteCount
    requires 0 < want && all == Peeked(contents, size, |out|, Min(lens[at.current] - at.offset, want)) && all != []
    ensures var at' := Advance(lens, at, Min(lens[at.current] - at.offset, want));
            && ScatteredSoFar(out + all, contents, size - |contents|, lens, start, at', want - |all|)
            && Sum(lens, at'.current) + at'.offset == EndOfTransfer(lens, off, |out| + |all|, total)
    ensures Sum(lens, at.current) + at.offset == off + |out| && off + |out| + |all| <= Sum(lens, |lens|)
    ensures accessible < |out| + |all| ==>
              && Stuck(lens, start, off, at.current, accessible, total, |contents|)
              && IsScattered(out + all[..accessible - |out|], contents, size - |contents|, lens, start,
                             Min(byteCount, accessible))
  {
    hide ScatteredSoFar, EndOfTransfer, Advance, Reach, Origin, Peeked, IsScattered;
    var at' := Advance(lens, at, Min(lens[at.current] - at.offset, want));
    ScatterStep(out, contents, size, lens, start, at, want, all, out + all, at');
    TransferStep(lens, at, off, |out|, want, |all|);
    ScatterCut(out, all, contents, size - |contents|, lens, start, at', want - |all|, byteCount, accessible);
  }

  /** What is delivered before a byte that cannot be written. */
  lemma ScatterCut(out: seq<byte>, all: seq<byte>, contents: seq<byte>, free: nat, lens: seq<nat>, start: Cursor,
                   at: Cursor,
                   want: nat, byteCount: nat, accessible: nat)
    requires CursorOk(lens, start) && CursorOk(lens, at) && |out| <= accessible
    requires ScatteredSoFar(out + all, contents, free, lens, start, at, want) && |out + all| + want <= byteCount
    ensures |out + all| <= Min(|contents|, Reach(lens, start.current, start.offset))
    ensures accessible < |out + all| ==>
              IsScattered(out + all[..accessible - |out|], contents, free, lens, start, Min(byteCount, accessible))
  {
    if accessible < |out + all| {
      var cut := out + all[..accessible - |out|];
      forall i | 0 <= i < |cut|
        ensures FromOrigin(cut, contents, free, lens, start, i)
      {
        assert FromOrigin(out + all, contents, free, lens, start, i) && cut[i] == (out + all)[i];
      }
    }
  }

  /** Leaving a segment behind uses up its part of the reach and keeps the later origins. */
  lemma ReachStep(lens: seq<nat>, free: nat, at: Cursor, n: nat, done: nat)
    requires at.current < |lens| && at.offset + n <= lens[at.current] && 0 < n
    ensures n <= Reach(lens, at.current, at.offset)
    ensures var at' := Advance(lens, at, n);
            && (Sum(lens, at'.current) + at'.offset == Sum(lens, |lens|) ==> Reach(lens, at'.current, at'.offset) == 0)
            && (at.offset + n == lens[at.current] ==>
                  n + Reach(lens, at'.current, at'.offset) == Reach(lens, at.current, at.offset))
            && (at.offset + n == lens[at.current] ==> forall i :: done + n <= i ==>
                  Origin(lens, free, at.current, at.offset, done, i)
                  == Origin(lens, free, at'.current, at'.offset, done + n, i))
  {
    var at' := Advance(lens, at, n);
    ReachBound(lens, at.current + 1, 0);
    ReachBound(lens, at'.current, at'.offset);
  }

  /** Where segment k starts, counted from the cursor of the transfer. */
  function Start(lens: seq<nat>, current: nat, offset: nat, k: nat): (n: int)
    requires current < |lens| && k <= |lens|
  {
    Sum(lens, k) - Sum(lens, current) - offset
  }

  /** Every segment that the transfer of n bytes enters starts within the free space. */
  ghost predicate StartsFit(lens: seq<nat>, current: nat, offset: nat, n: nat, free: nat)
    requires current < |lens|
  {
    forall k :: current < k < |lens| && Start(lens, current, offset, k) < n ==> Start(lens, current, offset, k) <= free
  }

  lemma {:induction false} OriginIdentity(lens: seq<nat>, free: nat, current: nat, offset: nat, done: nat, i: nat)
    requires current < |lens| && offset <= lens[current] && done <= i < done + Reach(lens, current, offset)
    requires done <= free
    requires forall k :: current < k < |lens| && Start(lens, current, offset, k) <= i - done ==>
               Start(lens, current, offset, k) <= free - done
    ensures Origin(lens, free, current, offset, done, i) == i
    decreases |lens| - current
  {
    var rem := lens[current] - offset;
    if done + rem <= i {
      assert Start(lens, current, offset, current + 1) == rem;
      var next := current + 1;
      forall k | next < k < |lens| && Start(lens, next, 0, k) <= i - (done + rem)
        ensures Start(lens, next, 0, k) <= free - (done + rem)
      {
        assert Start(lens, current, offset, k) == rem + Start(lens, next, 0, k);
      }
      OriginIdentity(lens, free, current + 1, 0, done + rem, i);
    }
  }

  lemma {:induction false} OriginAtStart(lens: seq<nat>, free: nat, current: nat, offset: nat, done: nat, k: nat)
    requires current <= k < |lens| && offset <= lens[current]
    requires k == current ==> offset == 0
    requires 0 <= Start(lens, current, offset, k) < Reach(lens, current, offset)
    ensures var p := done + Start(lens, current, offset, k);
            Origin(lens, free, current, offset, done, p) == Min(p, free)
    decreases |lens| - current
  {
    if current < k {
      SumMonotone(lens, current + 1, k);
      OriginAtStart(lens, free, current + 1, 0, done + (lens[current] - offset), k);
    }
  }

  /** A scatter is one copy from the front of the ring, whatever the ring holds, exactly when
      every segment it enters starts within the free space of the ring. */
  lemma ScatterExact(lens: seq<nat>, start: Cursor, datacount: nat, free: nat, want: nat)
    requires CursorOk(lens, start)
    ensures var n := Min(want, Min(datacount, Reach(lens, start.current, start.offset)));
            (forall contents: seq<byte>, out: seq<byte> | |contents| == datacount ::
               IsScattered(out, contents, free, lens, start, want) ==> out == contents[..n])
            <==> StartsFit(lens, start.current, start.offset, n, free)
  {
    var current, offset := start.current, start.offset;
    var n := Min(want, Min(datacount, Reach(lens, current, offset)));
    if StartsFit(lens, current, offset, n, free) {
      forall contents: seq<byte>, out: seq<byte>
        | |contents| == datacount && IsScattered(out, contents, free, lens, start, want)
        ensures out == contents[..n]
      {
        forall i | 0 <= i < n
          ensures out[i] == contents[i]
        {
          assert FromOrigin(out, contents, free, lens, start, i);
          OriginIdentity(lens, free, current, offset, 0, i);
        }
      }
    } else {
      var k :| current < k < |lens| && free < Start(lens, current, offset, k) < n;
      MisreadStart(lens, start, datacount, free, want, k);
    }
  }

  /** A segment that starts beyond the free space is filled from the wrong place. */
  lemma MisreadStart(lens: seq<nat>, start: Cursor, datacount: nat, free: nat, want: nat, k: nat)
    requires start.current < k < |lens| && start.offset <= lens[start.current]
    requires free < Start(lens, start.current, start.offset, k)
          < Min(want, Min(datacount, Reach(lens, start.current, start.offset)))
    ensures exists contents: seq<byte>, out: seq<byte> ::
              && |contents| == datacount && IsScattered(out, contents, free, lens, start, want)
              && out != contents[..Min(want, Min(datacount, Reach(lens, start.current, start.offset)))]
  {
    var current, offset := start.current, start.offset;
    var n := Min(want, Min(datacount, Reach(lens, current, offset)));
    var p := Start(lens, current, offset, k);
    var contents: seq<byte> := seq(datacount, i => if i == p then 1 else 0);
    var out := ScatterOf(contents, free, lens, start, want);
    hide Reach, Origin;
    OriginAtStart(lens, free, current, offset, 0, k);
    assert FromOrigin(out, contents, free, lens, start, p);
    assert contents[..n][p] == 1;
  }

  /** Whatever the ring holds, a scatter delivers something. */
  lemma ScatterOf(contents: seq<byte>, free: nat, lens: seq<nat>, start: Cursor, want: nat) returns (out: seq<byte>)
    requires CursorOk(lens, start)
    ensures IsScattered(out, contents, free, lens, start, want)
  {
    hide Reach, Origin;
    var n := Min(want, Min(|contents|, Reach(lens, start.current, start.offset)));
    forall i: nat | i < n
      ensures 0 <= Origin(lens, free, start.current, start.offset, 0, i) <= i
    {
      OriginBound(lens, free, start.current, start.offset, 0, i);
    }
    out := seq(n, i requires 0 <= i < n => contents[Origin(lens, free, start.current, start.offset, 0, i)]);
  }

  lemma {:induction false} OriginBound(lens: seq<nat>, free: nat, current: nat, offset: nat, done: nat, i: nat)
    requires current < |lens| && offset <= lens[current] && done <= i < done + Reach(lens, current, offset)
    ensures 0 <= Origin(lens, free, current, offset, done, i) <= i
    decreases |lens| - current
  {
    if done + (lens[current] - offset) <= i {
      OriginBound(lens, free, current + 1, 0, done + (lens[current] - offset), i);
    }
  }

  /** Every segment that starts before byte n has something left. */
  ghost predicate NonemptyUpTo(lens: seq<nat>, current: nat, offset: nat, n: nat)
    requires current < |lens| && offset <= lens[current]
  {
    0 < n ==> forall k :: current <= k < |lens| && Start(lens, current, offset, k) < n ==>
                lens[k] != (if k == current then offset else 0)
  }

  /** An empty first segment stops a gather that has five bytes to take. */
  lemma GatherStops()
    ensures Min(5, Min(5, Reach([0, 5], 0, 0))) == 0 && Sum([0, 5], 2) == 5
  {
    assert Sum([0, 5], 1) == 0;
  }

  /** A gather takes everything that is left, asked for and fits exactly when no segment with
      nothing left comes before that point. */
  lemma GatherExact(lens: seq<nat>, current: nat, offset: nat, free: nat, want: nat)
    requires current < |lens| && offset <= lens[current]
    ensures var left := Sum(lens, |lens|) - Sum(lens, current) - offset;
            && 0 <= left
            && (Min(want, Min(free, Reach(lens, current, offset))) == Min(want, Min(free, left))
                <==> NonemptyUpTo(lens, current, offset, Min(want, Min(free, left))))
  {
    SumMonotone(lens, current + 1, |lens|);
    ReachBound(lens, current, offset);
    ReachIsFirstEmpty(lens, current, offset, Min(want, Min(free, Sum(lens, |lens|) - Sum(lens, current) - offset)));
  }

  /** A transfer of n bytes is not cut short exactly when they are there and no segment with nothing
      left comes before their end. */
  lemma CountExact(lens: seq<nat>, at: Cursor, n: nat)
    requires CursorOk(lens, at)
    ensures n <= Reach(lens, at.current, at.offset)
       <==> Whole(lens, at, n)
  {
    SumMonotone(lens, at.current + 1, |lens|);
    ReachBound(lens, at.current, at.offset);
    if n <= Sum(lens, |lens|) - Sum(lens, at.current) - at.offset {
      ReachIsFirstEmpty(lens, at.current, at.offset, n);
    }
  }

  ghost predicate Whole(lens: seq<nat>, at: Cursor, n: nat)
    requires CursorOk(lens, at)
  {
    && Sum(lens, at.current) + at.offset + n <= Sum(lens, |lens|)
    && NonemptyUpTo(lens, at.current, at.offset, n)
  }

  lemma {:induction false} ReachIsFirstEmpty(lens: seq<nat>, current: nat, offset: nat, n: nat)
    requires current < |lens| && offset <= lens[current]
    requires n <= Sum(lens, |lens|) - Sum(lens, current) - offset
    ensures n <= Reach(lens, current, offset) <==> NonemptyUpTo(lens, current, offset, n)
    decreases |lens| - current
  {
    var rem := lens[current] - offset;
    if rem == 0 {
      assert Start(lens, current, offset, current) <= 0;
    } else if rem < n {
      var next := current + 1;
      SumMonotone(lens, next, |lens|);
      assert next < |lens|;
      ReachIsFirstEmpty(lens, next, 0, n - rem);
      forall k | next <= k < |lens|
        ensures Start(lens, current, offset, k) == rem + Start(lens, next, 0, k)
      {}
    } else {
      forall k | current < k < |lens|
        ensures Start(lens, current, offset, k) >= n
      {
        SumMonotone(lens, current + 1, k);
      }
    }
  }
}
