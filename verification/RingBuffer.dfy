/**
 The kernel's byte ring (kernel-src/lib/ringbuffer.c). Two counters run over an array of fixed
 size; a transfer that crosses the end of the array is done in two copies. The abstract value
 is the sequence of buffered bytes, oldest first.
 */
module RingBuffers {
  import opened Arith
  import opened Common

  /** RINGBUFFER_USER_COPY_FAILED is the all-ones size_t in the source. */
  datatype CopyResult = Copied(count: nat) | CopyFailed

  /** The array slot of a counter value. */
  function Slot(c: nat, size: nat): (s: nat)
    requires 0 < size
    ensures s < size
  {
    c % size
  }

  /** The bytes between two counter values, read through the array. */
  ghost function Window(buf: seq<byte>, r: nat, w: nat): (s: seq<byte>)
    requires 0 < |buf| && r <= w
    ensures |s| == w - r
  {
    seq(w - r, i requires 0 <= i < w - r => buf[Slot(r + i, |buf|)])
  }

  lemma WindowSplit(buf: seq<byte>, r: nat, m: nat, w: nat)
    requires 0 < |buf| && r <= m <= w
    ensures Window(buf, r, w) == Window(buf, r, m) + Window(buf, m, w)
  {
    var left, right := Window(buf, r, m), Window(buf, m, w);
    forall i | 0 <= i < w - r
      ensures Window(buf, r, w)[i] == (left + right)[i]
    {
      if m - r <= i { assert r + i == m + (i - (m - r)); }
    }
  }

  /** A window is what two copies from the array read: up to its end, and from its start. */
  lemma TwoPasses(buf: seq<byte>, from: nat, count: nat, first: nat)
    requires 0 < |buf| && count <= |buf| && first == Min(count, |buf| - from % |buf|)
    ensures buf[from % |buf|..from % |buf| + first] + buf[..count - first] == Window(buf, from, from + count)
  {
    var out := buf[from % |buf|..from % |buf| + first] + buf[..count - first];
    forall i | 0 <= i < count
      ensures out[i] == buf[Slot(from + i, |buf|)]
    {
      if i < |buf| { RingStep(from, i, |buf|); }
    }
  }

  lemma WindowPart(buf: seq<byte>, r: nat, w: nat, a: nat, n: nat)
    requires 0 < |buf| && r + a + n <= w
    ensures Window(buf, r, w)[a..a + n] == Window(buf, r + a, r + a + n)
  {
    WindowSplit(buf, r, r + a, w);
    WindowSplit(buf, r + a, r + a + n, w);
  }

  /** What a peek returns: the source clamps the start of the copy to the free space, but
      bounds its length by the unclamped offset. */
  function Peeked(contents: seq<byte>, size: nat, offset: nat, count: nat): (s: seq<byte>)
    requires |contents| <= size
    ensures |s| == if offset >= |contents| then 0 else Min(count, |contents| - offset)
  {
    if offset >= |contents| then []
    else
      var from := Min(offset, size - |contents|);
      contents[from..from + Min(count, |contents| - offset)]
  }

  /** The peek a caller asks for. */
  function PeekWanted(contents: seq<byte>, offset: nat, count: nat): (s: seq<byte>) {
    if offset >= |contents| then [] else contents[offset..offset + Min(count, |contents| - offset)]
  }

  class RingBuffer {
    const data: array<byte>
    var read: nat
    var write: nat

    ghost predicate Valid()
      reads this
    {
      0 < data.Length && read <= write <= read + data.Length
    }

    function DataCount(): (n: nat)
      requires Valid()
      reads this
    {
      write - read
    }

    function FreeSpace(): (n: nat)
      requires Valid()
      reads this
    {
      data.Length - DataCount()
    }

    ghost function Contents(): (s: seq<byte>)
      requires Valid()
      reads this, data
      ensures |s| == DataCount()
    {
      Window(data[..], read, write)
    }

    constructor (size: nat)
      requires 0 < size
      ensures Valid() && fresh(data) && data.Length == size && Contents() == []
    {
      data := new byte[size];
      read, write := 0, 0;
    }

    /** Drops bytes from the read end. */
    method Truncate(count: nat) returns (n: nat)
      requires Valid()
      modifies this`read
      ensures Valid()
      ensures n == Min(count, |old(Contents())|)
      ensures Contents() == old(Contents())[n..]
    {
      n := Min(DataCount(), count);
      WindowSplit(data[..], read, read + n, write);
      read := read + n;
    }

    /** Takes back the latest bytes from the write end. */
    method Remove(count: nat) returns (n: nat)
      requires Valid()
      modifies this`write
      ensures Valid()
      ensures n == Min(count, |old(Contents())|)
      ensures Contents() == old(Contents())[..|old(Contents())| - n]
    {
      n := Min(DataCount(), count);
      WindowSplit(data[..], read, write - n, write);
      write := write - n;
    }

    /** Copies count bytes out, starting at counter value from, in at most two passes. */
    method CopyOut(from: nat, count: nat) returns (out: seq<byte>)
      requires Valid() && read <= from && from + count <= write
      ensures out == Window(data[..], from, from + count)
    {
      var firstpassoffset := from % data.Length;
      var firstpasscount := Min(count, data.Length - firstpassoffset);
      out := data[firstpassoffset..firstpassoffset + firstpasscount];
      if firstpasscount != count {
        out := out + data[..count - firstpasscount];
      }
      TwoPasses(data[..], from, count, firstpasscount);
    }

    /** Takes the oldest bytes. Only the first accessible bytes of the destination can be written: a
        copy that needs more stops there and fails, and the ring is as before. */
    method Read(count: nat, accessible: nat) returns (r: CopyResult, out: seq<byte>)
      requires Valid()
      modifies this`read
      ensures Valid()
      ensures var n := Min(count, |old(Contents())|);
              && (accessible < n ==>
                    r == CopyFailed && out == old(Contents())[..accessible] && Contents() == old(Contents()))
              && (n <= accessible ==>
                    r == Copied(n) && out == old(Contents())[..n] && Contents() == old(Contents())[n..])
    {
      var n := Min(count, DataCount());
      out := CopyOut(read, Min(n, accessible));
      WindowSplit(data[..], read, read + Min(n, accessible), write);
      if accessible < n {
        return CopyFailed, out;
      }
      read := read + n;
      r := Copied(n);
    }

    /** Copies bytes from an offset, with the same limit on the destination. */
    method Peek(offset: nat, count: nat, accessible: nat) returns (r: CopyResult, out: seq<byte>)
      requires Valid()
      ensures var want := Peeked(Contents(), data.Length, offset, count);
              && (accessible < |want| ==> r == CopyFailed && out == want[..accessible])
              && (|want| <= accessible ==> r == Copied(|want|) && out == want)
    {
      var datacount := DataCount();
      var freespace := data.Length - datacount;
      if offset >= datacount {
        return Copied(0), [];
      }
      var start := Min(offset, freespace);
      var n := Min(count, datacount - offset);
      var m := Min(n, accessible);
      out := CopyOut(read + start, m);
      WindowPart(data[..], read, write, start, n);
      WindowPart(data[..], read + start, read + start + n, 0, m);
      r := if accessible < n then CopyFailed else Copied(n);
    }

    /** Copies src in, starting at counter value at, in at most two passes. */
    method CopyIn(at: nat, src: seq<byte>)
      requires 0 < data.Length && |src| <= data.Length
      modifies data
      ensures forall i :: 0 <= i < |src| ==> data[Slot(at + i, data.Length)] == src[i]
      ensures forall c: nat :: c < at && at + |src| <= c + data.Length ==>
                data[Slot(c, data.Length)] == old(data[Slot(c, data.Length)])
    {
      var size := data.Length;
      var firstpassoffset := at % size;
      var firstpasscount := Min(|src|, size - firstpassoffset);
      forall i | 0 <= i < firstpasscount { data[firstpassoffset + i] := src[i]; }
      if firstpasscount != |src| {
        forall i | 0 <= i < |src| - firstpasscount { data[i] := src[firstpasscount + i]; }
      }
      forall i | 0 <= i < |src|
        ensures data[Slot(at + i, size)] == src[i]
      {
        RingStep(at, i, size);
      }
      forall c: nat | c < at && at + |src| <= c + size
        ensures data[Slot(c, size)] == old(data[Slot(c, size)])
      {
        NotOverwritten(c, at, |src|, size);
      }
    }

    /** Appends the longest prefix of buffer that fits. Only the first accessible bytes of the
        buffer can be read: a copy that needs more stops there and fails, appending nothing. */
    method Write(buffer: seq<byte>, accessible: nat) returns (r: CopyResult)
      requires Valid()
      modifies this`write, data
      ensures Valid() && read == old(read)
      ensures var n := Min(|buffer|, old(FreeSpace()));
              && (accessible < n ==> r == CopyFailed && Contents() == old(Contents()))
              && (n <= accessible ==> r == Copied(n) && Contents() == old(Contents()) + buffer[..n])
    {
      var n := Min(|buffer|, FreeSpace());
      CopyIn(write, buffer[..Min(n, accessible)]);
      assert Contents() == old(Contents());
      if accessible < n {
        return CopyFailed;
      }
      WindowSplit(data[..], read, write, write + n);
      write := write + n;
      r := Copied(n);
    }
  }

  /** A slot holding a byte less than one lap behind the copy is in neither of its passes. */
  lemma NotOverwritten(c: nat, at: nat, count: nat, size: nat)
    requires 0 < size && c < at && at + count <= c + size
    ensures var first := at % size; var slot := Slot(c, size);
            && !(first <= slot < first + count)
            && !(first + count > size && slot < first + count - size)
  {
    if 0 < count {
      RingStep(c, at - c, size);
    }
  }

  /** The clamp of the peek offset is harmless exactly when the offset does not exceed the free
      space (or nothing is copied): otherwise some contents of that length are misreported. */
  lemma PeekExact(count: nat, datacount: nat, size: nat, offset: nat)
    requires datacount <= size
    ensures (forall contents: seq<byte> :: |contents| == datacount ==>
               Peeked(contents, size, offset, count) == PeekWanted(contents, offset, count))
       <==> (offset <= size - datacount || offset >= datacount || count == 0)
  {
    if size - datacount < offset < datacount && 0 < count {
      var free := size - datacount;
      var contents: seq<byte> := seq(datacount, i => if i == offset then 1 else 0);
      assert Peeked(contents, size, offset, count)[0] == contents[free] == 0;
      assert PeekWanted(contents, offset, count)[0] == 1;
    }
  }
}
