/**
 The bytes of a file of kernel-src/fs/ext2.c: its blocks one after the other, with zeros where there
 is no block. A read is a slice of them, and a write overwrites one.
 */
module Ext2Data {
  import opened Arith
  import opened Common
  import opened Ext2Tree
  import opened Ext2Blocks
  import opened Ext2Device
  import opened Ext2Inode
  import Ext2Dir

  // ----- Blocks as bytes

  /** Byte k of a pointer, the least significant first. */
  function Digit(w: nat, k: nat): (x: byte) {
    if k == 0 then w % 256 else Digit(w / 256, k - 1)
  }

  function BytesOf(block: seq<nat>): (s: seq<byte>)
    ensures |s| == 4 * |block|
  {
    seq(4 * |block|, i requires 0 <= i < 4 * |block| => Digit(block[i / 4], i % 4))
  }

  function Word(s: seq<byte>, o: nat): (w: nat)
    requires o + 4 <= |s|
  {
    s[o] as int + 256 * (s[o + 1] as int + 256 * (s[o + 2] as int + 256 * s[o + 3] as int))
  }

  function WordsOf(s: seq<byte>): (block: seq<nat>)
    ensures |block| == |s| / 4
  {
    seq(|s| / 4, k requires 0 <= k < |s| / 4 => Word(s, 4 * k))
  }

  lemma BytesRoundTrip(s: seq<byte>)
    requires |s| % 4 == 0
    ensures BytesOf(WordsOf(s)) == s
  {
    forall i | 0 <= i < |s|
      ensures BytesOf(WordsOf(s))[i] == s[i]
    {
      WordDigits(s, i / 4 * 4, i % 4);
    }
  }

  lemma WordDigits(s: seq<byte>, o: nat, k: nat)
    requires o + 4 <= |s| && k < 4
    ensures Digit(Word(s, o), k) == s[o + k]
  {
    var w0 := Word(s, o);
    var w1, w2, w3 := w0 / 256, w0 / 256 / 256, w0 / 256 / 256 / 256;
    assert w1 == s[o + 1] as int + 256 * (s[o + 2] as int + 256 * s[o + 3] as int);
    assert w2 == s[o + 2] as int + 256 * s[o + 3] as int && w3 == s[o + 3];
    assert Digit(w3, 0) == w3 % 256 && Digit(w2, 1) == Digit(w3, 0) && Digit(w2, 0) == w2 % 256;
    assert Digit(w1, 2) == Digit(w2, 1) && Digit(w1, 1) == Digit(w2, 0) && Digit(w1, 0) == w1 % 256;
    assert Digit(w0, 3) == Digit(w1, 2) && Digit(w0, 2) == Digit(w1, 1) && Digit(w0, 1) == Digit(w1, 0);
  }

  // ----- Files as bytes

  /** The bytes of a block with b pointers. */
  function Span(b: nat): (n: nat)
    ensures 0 < b ==> 0 < n
  {
    4 * b
  }

  /** Byte i of a file with blocks of n bytes is byte Rem of block Quot. */
  function Quot(i: nat, n: nat): (q: nat)
    requires 0 < n
  {
    i / n
  }

  function Rem(i: nat, n: nat): (r: nat)
    requires 0 < n
    ensures r < n
  {
    i % n
  }

  function Position(j: nat, n: nat, k: nat): (i: nat) {
    j * n + k
  }

  ghost function BlockBytes(disk: map<nat, seq<nat>>, t: Tree, b: nat, j: nat): (s: seq<byte>)
    requires 0 < b
    ensures |s| == Span(b)
  {
    var x := BlockAt(t, j, b);
    if x in disk && |disk[x]| == b then BytesOf(disk[x]) else seq(Span(b), _ => 0)
  }

  /** The bytes of the first m blocks of a file. */
  ghost function Data(disk: map<nat, seq<nat>>, t: Tree, b: nat, m: nat): (s: seq<byte>)
    requires 0 < b
    ensures |s| == Position(m, Span(b), 0)
  {
    seq(Position(m, Span(b), 0),
        i requires 0 <= i < Position(m, Span(b), 0) => BlockBytes(disk, t, b, Quot(i, Span(b)))[Rem(i, Span(b))])
  }

  /** The bytes d with data written over them at an offset, give or take other bytes of the blocks in
      part. */
  ghost predicate Wrote(bs: nat, d: seq<byte>, d': seq<byte>, off: nat, data: seq<byte>, part: set<nat>)
    requires 0 < bs
  {
    && |d'| == |d| && off + |data| <= |d|
    && forall i :: 0 <= i < |d| ==>
         if off <= i < off + |data| then d'[i] == data[i - off] else d'[i] == d[i] || Quot(i, bs) in part
  }

  lemma WroteExactly(bs: nat, d: seq<byte>, d': seq<byte>, off: nat, data: seq<byte>)
    requires 0 < bs
    ensures Wrote(bs, d, d', off, data, {}) <==> off + |data| <= |d| && d' == Ext2Dir.Write(d, off, data)
  {}

  /** Two writes in a row. The second spares what the first has written. */
  lemma WroteTwice(bs: nat, d: seq<byte>, d1: seq<byte>, d2: seq<byte>, off: nat, x: seq<byte>, y: seq<byte>,
                   part1: set<nat>, part2: set<nat>)
    requires 0 < bs && Wrote(bs, d, d1, off, x, part1) && Wrote(bs, d1, d2, off + |x|, y, part2)
    requires forall j :: j in part2 ==> off + |x| <= Position(j, bs, 0)
    ensures Wrote(bs, d, d2, off, x + y, part1 + part2)
  {
    forall i | 0 <= i < |d|
      ensures if off <= i < off + |x + y| then d2[i] == (x + y)[i - off]
              else d2[i] == d[i] || Quot(i, bs) in part1 + part2
    {
      Spot(bs, i);
    }
  }

  /** One block is written, over what was there or over something else. */
  lemma BlockWrote(disk: map<nat, seq<nat>>, t: Tree, disk': map<nat, seq<nat>>, t': Tree, b: nat, m: nat, index: nat,
                   base: seq<byte>, start: nat, data: seq<byte>)
    requires 0 < b && index < m && |base| == Span(b) && start + |data| <= Span(b)
    requires BlockBytes(disk', t', b, index) == Ext2Dir.Write(base, start, data)
    requires forall j :: 0 <= j < m && j != index ==> BlockBytes(disk', t', b, j) == BlockBytes(disk, t, b, j)
    ensures Wrote(Span(b), Data(disk, t, b, m), Data(disk', t', b, m), Position(index, Span(b), start), data,
                  if base == BlockBytes(disk, t, b, index) then {} else {index})
  {
    hide BlockBytes, Span, Position, Quot, Rem;
    var bs, n := Span(b), Position(m, Span(b), 0);
    Inside(bs, m, index, start + |data|);
    Along(bs, index, start, |data|);
    forall i | 0 <= i < n
      ensures Quot(i, bs) < m && (Position(index, bs, start) <= i < Position(index, bs, start) + |data|
              <==> Quot(i, bs) == index && start <= Rem(i, bs) < start + |data|)
      ensures Quot(i, bs) == index ==> i - Position(index, bs, start) == Rem(i, bs) - start
    {
      SpotIn(bs, m, index, start, |data|, i);
    }
  }

  lemma Spot(bs: nat, i: nat)
    requires 0 < bs
    ensures i == Position(Quot(i, bs), bs, Rem(i, bs)) && Position(Quot(i, bs), bs, 0) <= i
  {}

  /** A block that is not the last ends within the file. */
  lemma Inside(bs: nat, m: nat, index: nat, k: nat)
    requires index < m && k <= bs
    ensures Position(index, bs, k) <= Position(m, bs, 0)
  {
    MulMono(index + 1, m, bs);
    assert (index + 1) * bs == index * bs + bs;
  }

  lemma Along(bs: nat, index: nat, k: nat, n: nat)
    ensures Position(index, bs, k + n) == Position(index, bs, k) + n
    ensures Position(index + 1, bs, k) == Position(index, bs, k) + bs
  {
    assert (index + 1) * bs == index * bs + bs;
  }

  lemma SpotIn(bs: nat, m: nat, index: nat, start: nat, n: nat, i: nat)
    requires 0 < bs && start + n <= bs && i < Position(m, bs, 0)
    ensures Quot(i, bs) < m
    ensures Position(index, bs, start) <= i < Position(index, bs, start) + n
       <==> Quot(i, bs) == index && start <= Rem(i, bs) < start + n
    ensures Quot(i, bs) == index ==> i - Position(index, bs, start) == Rem(i, bs) - start
  {
    QuotientBound(i, bs, m);
    Spot(bs, i);
    if index * bs + start <= i < index * bs + start + n {
      DivModUnique(i, bs, index, i - index * bs);
    }
  }

  // ----- What the operations on blocks do to the bytes

  /** A block of the file is in use, holds no pointers, and is at one index only. */
  lemma DataBlock(v: Volume, n: Inode, t: Tree, b: nat, spb: nat, index: nat)
    requires Rep(v, n, t, b, spb) && index < Capacity(b)
    ensures 0 < b
    ensures BlockAt(t, index, b) != 0 ==>
              var x := BlockAt(t, index, b);
              && x in v.disk && |v.disk[x]| == b && x in t.owner && x !in v.free && x !in Pointers(t)
              && forall j :: 0 <= j < Capacity(b) && BlockAt(t, j, b) == x ==> j == index
  {
    hide Stored, Sectors, ValidPath, PathOf, Capacity;
    SplitInverts(index, b);
    if BlockAt(t, index, b) != 0 {
      forall j | 0 <= j < Capacity(b) && BlockAt(t, j, b) == BlockAt(t, index, b)
        ensures j == index
      {
        SplitInjective(j, index, b);
      }
    }
  }

  /** All blocks of a file read as before, and all but one. */
  ghost predicate SameBytes(disk: map<nat, seq<nat>>, t: Tree, disk': map<nat, seq<nat>>, t': Tree, b: nat)
    requires 0 < b
  {
    forall j :: 0 <= j < Capacity(b) ==> BlockBytes(disk', t', b, j) == BlockBytes(disk, t, b, j)
  }

  ghost predicate OtherBytes(disk: map<nat, seq<nat>>, t: Tree, disk': map<nat, seq<nat>>, t': Tree, b: nat, index: nat)
    requires 0 < b
  {
    forall j :: 0 <= j < Capacity(b) && j != index ==> BlockBytes(disk', t', b, j) == BlockBytes(disk, t, b, j)
  }

  /** Where only pointers are written, the blocks of the file read as before. */
  lemma BlockKept(v: Volume, n: Inode, t: Tree, v': Volume, n': Inode, t': Tree, b: nat, spb: nat, j: nat)
    requires Rep(v, n, t, b, spb) && Rep(v', n', t', b, spb) && OnlyPointers(v.disk, v'.disk, t') && j < Capacity(b)
    requires BlockAt(t', j, b) == BlockAt(t, j, b)
    ensures BlockBytes(v'.disk, t', b, j) == BlockBytes(v.disk, t, b, j)
  {
    hide TreeOk, Stored, Owned, BytesOf, BlockAt, Capacity, Pointers;
    DataBlock(v', n', t', b, spb, j);
  }

  lemma OthersKept(v: Volume, n: Inode, t: Tree, v': Volume, n': Inode, t': Tree, b: nat, spb: nat, index: nat)
    requires Rep(v, n, t, b, spb) && Rep(v', n', t', b, spb) && OnlyPointers(v.disk, v'.disk, t')
    requires 0 < b && SameExcept(t, t', index, b)
    ensures OtherBytes(v.disk, t, v'.disk, t', b, index)
  {
    hide Rep, OnlyPointers, BlockBytes, BlockAt, Capacity;
    forall j | 0 <= j < Capacity(b) && j != index
      ensures BlockBytes(v'.disk, t', b, j) == BlockBytes(v.disk, t, b, j)
    {
      BlockKept(v, n, t, v', n', t', b, spb, j);
    }
  }

  lemma AllKept(v: Volume, n: Inode, t: Tree, v': Volume, n': Inode, t': Tree, b: nat, spb: nat)
    requires Rep(v, n, t, b, spb) && Rep(v', n', t', b, spb) && OnlyPointers(v.disk, v'.disk, t')
    requires 0 < b && SameFile(t, t', b)
    ensures SameBytes(v.disk, t, v'.disk, t', b)
  {
    hide Rep, OnlyPointers, BlockBytes, BlockAt, Capacity;
    forall j | 0 <= j < Capacity(b)
      ensures BlockBytes(v'.disk, t', b, j) == BlockBytes(v.disk, t, b, j)
    {
      BlockKept(v, n, t, v', n', t', b, spb, j);
    }
  }

  /** Other contents for a block of the file. */
  lemma WriteData(v: Volume, n: Inode, t: Tree, b: nat, spb: nat, index: nat, block: seq<nat>, v': Volume)
    requires Rep(v, n, t, b, spb) && index < Capacity(b) && 0 < b && BlockAt(t, index, b) != 0 && |block| == b
    requires v' == v.(disk := v.disk[BlockAt(t, index, b) := block])
    ensures Rep(v', n, t, b, spb) && SameBlocks(v, t, v', t, {})
    ensures BlockBytes(v'.disk, t, b, index) == BytesOf(block) && OtherBytes(v.disk, t, v'.disk, t, b, index)
  {
    hide Rep, BytesOf, BlockAt, Capacity, Pointers;
    DataBlock(v, n, t, b, spb, index);
    DataRep(v, n, t, b, spb, BlockAt(t, index, b), block);
  }

  lemma DataRep(v: Volume, n: Inode, t: Tree, b: nat, spb: nat, x: nat, block: seq<nat>)
    requires Rep(v, n, t, b, spb) && x in v.disk && x !in Pointers(t) && |block| == b
    ensures Rep(v.(disk := v.disk[x := block]), n, t, b, spb)
  {
    hide TreeOk, Sectors, IsIndirect;
    var disk := v.disk[x := block];
    forall p | p in t.at && IsIndirect(p)
      ensures NodeStored(disk, t, b, p)
    {
      assert NodeStored(v.disk, t, b, p) && t.at[p] in Pointers(t);
    }
  }

  // ----- Blocks are added to holes

  /** No block is lost, and blocks are only added. */
  ghost predicate Filled(v: Volume, t: Tree, v': Volume, t': Tree, b: nat)
    requires 0 < b
  {
    && SameBlocks(v, t, v', t', {}) && KeepsIndirect(t, t')
    && forall j :: 0 <= j < Capacity(b) && BlockAt(t, j, b) != 0 ==> BlockAt(t', j, b) == BlockAt(t, j, b)
  }

  lemma FilledSame(v: Volume, t: Tree, v': Volume, t': Tree, b: nat)
    requires 0 < b && SameBlocks(v, t, v', t', {}) && KeepsIndirect(t, t') && SameFile(t, t', b)
    ensures Filled(v, t, v', t', b)
  {}

  lemma FilledOne(v: Volume, t: Tree, v': Volume, t': Tree, b: nat, index: nat)
    requires 0 < b && SameBlocks(v, t, v', t', {}) && KeepsIndirect(t, t') && SameExcept(t, t', index, b)
    requires BlockAt(t, index, b) == 0
    ensures Filled(v, t, v', t', b)
  {}

  lemma FilledTransitive(v: Volume, t: Tree, v1: Volume, t1: Tree, v2: Volume, t2: Tree, b: nat)
    requires 0 < b && Filled(v, t, v1, t1, b) && Filled(v1, t1, v2, t2, b)
    ensures Filled(v, t, v2, t2, b)
  {
    hide SameBlocks, KeepsIndirect, BlockAt, Capacity;
    SameBlocksTransitive(v, t, v1, t1, v2, t2);
    KeepsTransitive(t, t1, t2);
  }

  /** A block that could not be used becomes free again. */
  lemma GivenBack(v: Volume, t: Tree, x: nat, v1: Volume, v2: Volume, t2: Tree, v3: Volume)
    requires x in v.free && x in v.disk && v1 == v.(free := v.free - {x}) && x !in Blocks(v1, t)
    requires SameBlocks(v1, t, v2, t2, {}) && v3 == v2.(free := v2.free + {x})
    ensures SameBlocks(v, t, v3, t2, {}) && x !in t2.owner && x in v2.disk
  {
    assert v.free - {x} + t.owner.Keys + {x} == v.free + t.owner.Keys;
    assert v2.free + {x} + t2.owner.Keys == Blocks(v2, t2) + {x};
    assert x !in Blocks(v2, t2);
  }

  lemma FreedRep(v: Volume, n: Inode, t: Tree, b: nat, spb: nat, x: nat)
    requires Rep(v, n, t, b, spb) && x in v.disk && x !in t.owner
    ensures Rep(v.(free := v.free + {x}), n, t, b, spb)
  {
    hide TreeOk, Stored, Sectors;
    StoredFrame(v, n, t, b, v.free + {x}, n.sectcount);
  }

  /** A hole of a sparse file gets a block, which is the least free one and keeps its old contents. Zero
      stands for ENOSPC: the file reads as before, and at most one block is free. */
  method FillHole(f: File, index: nat) returns (x: nat)
    requires f.Valid() && 0 < f.b && index < Capacity(f.b) && BlockAt(f.tree, index, f.b) == 0
    modifies f.device`disk, f.device`free, f.device.alloc, f`inode, f`tree
    ensures f.Valid() && Filled(old(f.V()), old(f.tree), f.V(), f.tree, f.b)
    ensures x != 0 ==>
              && BlockAt(f.tree, index, f.b) == x && x in old(f.device.free) && x in old(f.device.disk)
              && (forall y :: y in old(f.device.free) ==> x <= y)
              && x in f.device.disk && f.device.disk[x] == old(f.device.disk)[x]
              && OtherBytes(old(f.device.disk), old(f.tree), f.device.disk, f.tree, f.b, index)
    ensures x == 0 ==>
              |f.V().free| <= 1 && SameBytes(old(f.device.disk), old(f.tree), f.device.disk, f.tree, f.b)
  {
    hide Rep, SameBlocks, Blocks, KeepsIndirect, SameExcept, SameFile, Capacity, BlockAt, BlockBytes, OnlyPointers,
         Filled, Reaches, SameBytes, OtherBytes, Device.Valid;
    ghost var v, n, t := f.V(), f.inode, f.tree;
    SameBlocksReflexive(v, t);
    NothingChanged(t, f.b);
    x := f.device.AllocateBlock();
    if x == 0 {
      FilledSame(v, t, f.V(), f.tree, f.b);
      AllKept(v, n, t, f.V(), f.inode, f.tree, f.b, f.spb);
      return;
    }
    Taken(v, n, t, f.b, f.spb, x);
    ghost var v1 := f.V();
    var ok := f.SetInodeBlock(index, x);
    if !ok {
      ghost var v2 := f.V();
      GivenBack(v, t, x, v1, v2, f.tree, v2.(free := v2.free + {x}));
      FreedRep(v2, f.inode, f.tree, f.b, f.spb, x);
      f.device.FreeBlock(x);
      FilledSame(v, t, f.V(), f.tree, f.b);
      AllKept(v, n, t, f.V(), f.inode, f.tree, f.b, f.spb);
      return 0;
    }
    ReservedReturns(v, t, x, v1, f.V(), f.tree);
    SameBlocksSymmetric(f.V(), f.tree, v, t);
    FilledOne(v, t, f.V(), f.tree, f.b, index);
    OthersKept(v, n, t, f.V(), f.inode, f.tree, f.b, f.spb, index);
    NotPointed(v1.disk, f.V(), f.inode, f.tree, f.b, f.spb, index);
  }

  lemma NotPointed(disk: map<nat, seq<nat>>, v: Volume, n: Inode, t: Tree, b: nat, spb: nat, index: nat)
    requires Rep(v, n, t, b, spb) && index < Capacity(b) && OnlyPointers(disk, v.disk, t) && 0 < b
    ensures var x := BlockAt(t, index, b); x != 0 ==> x in disk && x in v.disk && v.disk[x] == disk[x]
  {
    hide Rep, Capacity, BlockAt, Pointers;
    DataBlock(v, n, t, b, spb, index);
  }

  // ----- Writing

  /** The bytes of the least free block. */
  ghost predicate Stale(v: Volume, base: seq<byte>) {
    exists x :: x in v.free && x in v.disk && (forall y :: y in v.free ==> x <= y) && base == BytesOf(v.disk[x])
  }

  lemma OtherBytesTransitive(disk: map<nat, seq<nat>>, t: Tree, disk1: map<nat, seq<nat>>, t1: Tree,
                             disk2: map<nat, seq<nat>>, t2: Tree, b: nat, index: nat)
    requires 0 < b && OtherBytes(disk, t, disk1, t1, b, index) && OtherBytes(disk1, t1, disk2, t2, b, index)
    ensures OtherBytes(disk, t, disk2, t2, b, index)
  {
    hide BlockBytes, Capacity;
  }

  lemma OtherBytesReflexive(disk: map<nat, seq<nat>>, t: Tree, b: nat, index: nat)
    requires 0 < b
    ensures OtherBytes(disk, t, disk, t, b, index)
  {}

  lemma BytesHere(v: Volume, t: Tree, b: nat, index: nat)
    requires 0 < b && BlockAt(t, index, b) in v.disk && |v.disk[BlockAt(t, index, b)]| == b
    ensures BlockBytes(v.disk, t, b, index) == BytesOf(v.disk[BlockAt(t, index, b)])
  {}

  /** rwblock_iovec with data to write: they overwrite a part of what the block held, or of what the
      block that fills a hole held before. */
  method WriteInBlock(f: File, index: nat, start: nat, data: seq<byte>) returns (ok: bool, ghost base: seq<byte>)
    requires f.Valid() && 0 < f.b && f.blockSize == Span(f.b) && index < Capacity(f.b) && Reaches(f.tree, index, f.b)
    requires start + |data| <= f.blockSize
    modifies f.device`disk, f.device`free, f.device.alloc, f`inode, f`tree
    ensures f.Valid() && Filled(old(f.V()), old(f.tree), f.V(), f.tree, f.b) && |base| == Span(f.b)
    ensures ok ==>
              && BlockBytes(f.device.disk, f.tree, f.b, index) == Ext2Dir.Write(base, start, data)
              && OtherBytes(old(f.device.disk), old(f.tree), f.device.disk, f.tree, f.b, index)
    ensures BlockAt(old(f.tree), index, f.b) != 0 ==>
              ok && f.tree == old(f.tree) && base == BlockBytes(old(f.device.disk), f.tree, f.b, index)
    ensures BlockAt(old(f.tree), index, f.b) == 0 && ok ==> Stale(old(f.V()), base)
    ensures !ok ==> |f.V().free| <= 1 && SameBytes(old(f.device.disk), old(f.tree), f.device.disk, f.tree, f.b)
  {
    hide Rep, SameBlocks, KeepsIndirect, SameFile, Capacity, BlockAt, BlockBytes, Filled, Reaches, SameBytes,
         OtherBytes, BytesOf, WordsOf, Ext2Dir.Write, Stale, Device.Valid;
    ghost var v, n, t := f.V(), f.inode, f.tree;
    base := BlockBytes(v.disk, t, f.b, index);
    OtherBytesReflexive(v.disk, t, f.b, index);
    NothingChanged(t, f.b);
    SameBlocksReflexive(v, t);
    FilledSame(v, t, v, t, f.b);
    ok := true;
    var x := f.GetInodeBlock(index);
    if x == 0 {
      x := FillHole(f, index);
      if x == 0 {
        return false, base;
      }
      IsStale(v, x);
      base := BytesOf(v.disk[x]);
    }
    ghost var v1, n1, t1 := f.V(), f.inode, f.tree;
    DataBlock(v1, n1, t1, f.b, f.spb, index);
    BytesHere(v1, t1, f.b, index);
    assert BytesOf(f.device.disk[x]) == base;
    var bytes := Ext2Dir.Write(BytesOf(f.device.disk[x]), start, data);
    BytesRoundTrip(bytes);
    f.device.WriteBlock(x, WordsOf(bytes));
    WriteData(v1, n1, t1, f.b, f.spb, index, WordsOf(bytes), f.V());
    NothingChanged(t1, f.b);
    FilledSame(v1, t1, f.V(), t1, f.b);
    FilledTransitive(v, t, v1, t1, f.V(), t1, f.b);
    OtherBytesTransitive(v.disk, t, v1.disk, t1, f.device.disk, t1, f.b, index);
  }

  lemma IsStale(v: Volume, x: nat)
    requires x in v.free && x in v.disk && forall y :: y in v.free ==> x <= y
    ensures Stale(v, BytesOf(v.disk[x]))
  {}

  /** After a write to a part of a hole the rest of the block still reads as zeros exactly if the block
      that fills the hole held zeros there. */
  lemma HoleExact(base: seq<byte>, start: nat, data: seq<byte>)
    requires start + |data| <= |base|
    ensures Ext2Dir.Write(base, start, data) == Ext2Dir.Write(seq(|base|, _ => 0), start, data)
       <==> forall i :: 0 <= i < |base| && !(start <= i < start + |data|) ==> base[i] == 0
  {
    var x, y := Ext2Dir.Write(base, start, data), Ext2Dir.Write(seq(|base|, _ => 0), start, data);
    if x == y {
      forall i | 0 <= i < |base| && !(start <= i < start + |data|)
        ensures base[i] == 0
      {
        assert x[i] == base[i] && y[i] == 0;
      }
    }
  }

  /** A block of ones under a write of one byte. */
  lemma HoleShows()
    ensures Ext2Dir.Write([1, 1, 1, 1], 0, [2]) == [2, 1, 1, 1] && Ext2Dir.Write(seq(4, _ => 0), 0, [2]) == [2, 0, 0, 0]
  {}

  /** Every one of the first m blocks can be reached, and is there. */
  ghost predicate Backed(t: Tree, b: nat, m: nat)
    requires 0 < b
  {
    m <= Capacity(b) && forall j :: 0 <= j < m ==> Reaches(t, j, b)
  }

  ghost predicate Solid(t: Tree, b: nat, m: nat)
    requires 0 < b
  {
    forall j :: 0 <= j < m ==> BlockAt(t, j, b) != 0
  }

  lemma BackedKept(v: Volume, t: Tree, v': Volume, t': Tree, b: nat, m: nat)
    requires 0 < b && Backed(t, b, m) && Filled(v, t, v', t', b)
    ensures Backed(t', b, m)
  {
    hide SameBlocks, KeepsIndirect, Reaches, BlockAt, Capacity;
    forall j | 0 <= j < m
      ensures Reaches(t', j, b)
    {
      ReachesKept(t, t', j, b);
    }
  }

  ghost function Bytes(f: File, m: nat): (s: seq<byte>)
    requires 0 < f.b
    reads f, f.device
  {
    Data(f.device.disk, f.tree, f.b, m)
  }

  lemma SameData(disk: map<nat, seq<nat>>, t: Tree, disk': map<nat, seq<nat>>, t': Tree, b: nat, m: nat)
    requires 0 < b && SameBytes(disk, t, disk', t', b) && m <= Capacity(b)
    ensures Data(disk', t', b, m) == Data(disk, t, b, m)
  {
    hide BlockBytes, Capacity, Span, Position, Quot, Rem;
    forall i | 0 <= i < Position(m, Span(b), 0)
      ensures Data(disk', t', b, m)[i] == Data(disk, t, b, m)[i]
    {
      SpotIn(Span(b), m, 0, 0, 0, i);
    }
  }

  lemma WholeBlock(bs: nat, d: seq<byte>, d': seq<byte>, index: nat, data: seq<byte>, part: set<nat>)
    requires 0 < bs && |data| == bs && Wrote(bs, d, d', Position(index, bs, 0), data, part) && part <= {index}
    ensures Wrote(bs, d, d', Position(index, bs, 0), data, {})
  {
    hide Quot, Position;
    forall i | 0 <= i < |d| && Quot(i, bs) == index
      ensures Position(index, bs, 0) <= i < Position(index, bs, 0) + bs
    {
      Spot(bs, i);
      Along(bs, index, 0, Rem(i, bs));
    }
  }

  /** One block of a file, or a part of it, is written: only the rest of a hole that is written in part
      can read differently. */
  method WriteSome(f: File, m: nat, index: nat, start: nat, data: seq<byte>) returns (ok: bool, ghost part: set<nat>)
    requires f.Valid() && 0 < f.b && f.blockSize == Span(f.b) && Backed(f.tree, f.b, m) && index < m
    requires start + |data| <= f.blockSize
    modifies f.device`disk, f.device`free, f.device.alloc, f`inode, f`tree
    ensures f.Valid() && Filled(old(f.V()), old(f.tree), f.V(), f.tree, f.b) && Backed(f.tree, f.b, m)
    ensures BlockAt(old(f.tree), index, f.b) != 0 ==> ok && f.tree == old(f.tree)
    ensures part <= {index} && (index in part ==> |data| < f.blockSize && BlockAt(old(f.tree), index, f.b) == 0)
    ensures !ok ==> |f.V().free| <= 1 && Bytes(f, m) == old(Bytes(f, m))
    ensures ok ==> Wrote(Span(f.b), old(Bytes(f, m)), Bytes(f, m), Position(index, Span(f.b), start), data, part)
  {
    hide Rep, Capacity, BlockAt, BlockBytes, Filled, Reaches, SameBytes, Data, Span, Position, Wrote, Ext2Dir.Write,
         Stale, Device.Valid;
    ghost var v, t, d := f.V(), f.tree, Bytes(f, m);
    ghost var base;
    ok, base := WriteInBlock(f, index, start, data);
    BackedKept(v, t, f.V(), f.tree, f.b, m);
    part := {};
    if ok {
      BlockWrote(v.disk, t, f.device.disk, f.tree, f.b, m, index, base, start, data);
      part := if base == BlockBytes(v.disk, t, f.b, index) then {} else {index};
      if |data| == Span(f.b) {
        WholeBlock(Span(f.b), d, Bytes(f, m), index, data, part);
        part := {};
      }
    } else {
      SameData(v.disk, t, f.device.disk, f.tree, f.b, m);
    }
  }

  lemma NothingWrote(bs: nat, d: seq<byte>, off: nat)
    requires 0 < bs && off <= |d|
    ensures Wrote(bs, d, d, off, [], {})
  {}

  lemma WroteOn(bs: nat, d: seq<byte>, d1: seq<byte>, d2: seq<byte>, off: nat, data: seq<byte>, k: nat, n: nat,
                part1: set<nat>, part2: set<nat>)
    requires 0 < bs && k + n <= |data| && Wrote(bs, d, d1, off, data[..k], part1)
    requires Wrote(bs, d1, d2, off + k, data[k..k + n], part2)
    requires forall j :: j in part2 ==> off + k <= Position(j, bs, 0)
    ensures Wrote(bs, d, d2, off, data[..k + n], part1 + part2)
  {
    hide Wrote, Position;
    assert data[..k] + data[k..k + n] == data[..k + n];
    WroteTwice(bs, d, d1, d2, off, data[..k], data[k..k + n], part1, part2);
  }

  /** Where a file is solid, a write allocates nothing, and so cannot fail. */
  ghost predicate Settled(t: Tree, t': Tree, b: nat, m: nat, ok: bool)
    requires 0 < b
  {
    Solid(t, b, m) ==> ok && t' == t
  }

  /** rwblocks_iovec with whole blocks to write. */
  method WriteBlocks(f: File, m: nat, index: nat, count: nat, data: seq<byte>) returns (ok: bool, ghost written: nat)
    requires f.Valid() && 0 < f.b && f.blockSize == Span(f.b) && Backed(f.tree, f.b, m) && index + count <= m
    requires |data| == Position(count, Span(f.b), 0)
    modifies f.device`disk, f.device`free, f.device.alloc, f`inode, f`tree
    ensures f.Valid() && Filled(old(f.V()), old(f.tree), f.V(), f.tree, f.b) && Backed(f.tree, f.b, m)
    ensures Settled(old(f.tree), f.tree, f.b, m, ok)
    ensures written <= |data| && (ok ==> written == |data|) && (!ok ==> |f.V().free| <= 1)
    ensures Wrote(Span(f.b), old(Bytes(f, m)), Bytes(f, m), Position(index, Span(f.b), 0), data[..written], {})
  {
    hide Rep, Capacity, BlockAt, Filled, Reaches, Data, Span, Position, Wrote, Solid, Device.Valid, SameBlocks;
    ghost var v, t, d := f.V(), f.tree, Bytes(f, m);
    var bs, i := f.blockSize, 0;
    ok, written := true, 0;
    FilledSelf(v, t, f.b);
    Within(bs, index, m);
    NothingWrote(bs, d, Position(index, bs, 0));
    assert data[..0] == [];
    PositionZero(bs);
    while i < count && ok
      invariant i <= count && f.Valid() && Filled(v, t, f.V(), f.tree, f.b) && Backed(f.tree, f.b, m)
      invariant Settled(t, f.tree, f.b, m, ok)
      invariant written == Position(i, bs, 0) <= |data| && (!ok ==> |f.V().free| <= 1)
      invariant Wrote(bs, d, Bytes(f, m), Position(index, bs, 0), data[..written], {})
      decreases count - i, ok
    {
      ghost var v1, t1, d1 := f.V(), f.tree, Bytes(f, m);
      ghost var part;
      Inside(bs, count, i, bs);
      Along(bs, i, 0, bs);
      AlongBlocks(bs, index, i);
      ok, part := WriteSome(f, m, index + i, 0, data[Position(i, bs, 0)..Position(i + 1, bs, 0)]);
      FilledTransitive(v, t, v1, t1, f.V(), f.tree, f.b);
      SolidAt(t, f.b, m, index + i);
      if ok {
        assert part == {} && {} + part == {};
        WroteOn(bs, d, d1, Bytes(f, m), Position(index, bs, 0), data, written, bs, {}, part);
        i, written := i + 1, written + bs;
      }
    }
  }

  lemma FilledSelf(v: Volume, t: Tree, b: nat)
    requires 0 < b
    ensures Filled(v, t, v, t, b)
  {
    SameBlocksReflexive(v, t);
    NothingChanged(t, b);
  }

  lemma Within(bs: nat, i: nat, m: nat)
    requires i <= m
    ensures Position(i, bs, 0) <= Position(m, bs, 0)
  {
    MulMono(i, m, bs);
  }

  lemma PositionZero(bs: nat)
    ensures Position(0, bs, 0) == 0
  {}

  lemma AlongBlocks(bs: nat, index: nat, i: nat)
    ensures Position(index + i, bs, 0) == Position(index, bs, 0) + Position(i, bs, 0)
  {
    assert (index + i) * bs == index * bs + i * bs;
  }

  lemma SolidAt(t: Tree, b: nat, m: nat, j: nat)
    requires 0 < b && j < m
    ensures Solid(t, b, m) ==> BlockAt(t, j, b) != 0
  {}

  lemma FitsBlocks(bs: nat, m: nat, index: nat, blocks: nat, rest: nat)
    requires 0 < bs && Position(index, bs, Position(blocks, bs, rest)) <= Position(m, bs, 0)
    ensures index + blocks <= m && (rest != 0 ==> index + blocks < m)
    ensures Position(index + blocks, bs, 0) == Position(index, bs, 0) + Position(blocks, bs, 0)
    ensures Position(blocks, bs, rest) == Position(blocks, bs, 0) + rest
  {
    AlongBlocks(bs, index, blocks);
    if m < index + blocks { Inside(bs, index + blocks, m, bs); }
  }

  lemma HoleBefore(v: Volume, t: Tree, v1: Volume, t1: Tree, b: nat, j: nat)
    requires 0 < b && Filled(v, t, v1, t1, b) && j < Capacity(b) && BlockAt(t1, j, b) == 0
    ensures BlockAt(t, j, b) == 0
  {}

  /** The middle and the last part of rwbytes_iovec: whole blocks from an index on, and the rest. */
  method WriteAligned(f: File, m: nat, index: nat, data: seq<byte>)
    returns (ok: bool, ghost written: nat, ghost part: set<nat>)
    requires f.Valid() && 0 < f.b && f.blockSize == Span(f.b) && Backed(f.tree, f.b, m)
    requires Position(index, Span(f.b), |data|) <= Position(m, Span(f.b), 0)
    modifies f.device`disk, f.device`free, f.device.alloc, f`inode, f`tree
    ensures f.Valid() && Filled(old(f.V()), old(f.tree), f.V(), f.tree, f.b) && Backed(f.tree, f.b, m)
    ensures Settled(old(f.tree), f.tree, f.b, m, ok)
    ensures written <= |data| && (ok ==> written == |data|) && (!ok ==> |f.V().free| <= 1)
    ensures part <= {index + Quot(|data|, Span(f.b))} && (part != {} ==> Rem(|data|, Span(f.b)) != 0)
    ensures forall j :: j in part ==> j < m && BlockAt(old(f.tree), j, f.b) == 0
    ensures Wrote(Span(f.b), old(Bytes(f, m)), Bytes(f, m), Position(index, Span(f.b), 0), data[..written], part)
  {
    hide Rep, Capacity, BlockAt, Filled, Reaches, Data, Span, Position, Quot, Rem, Wrote, Solid, Device.Valid,
         SameBlocks;
    ghost var v, t, d := f.V(), f.tree, Bytes(f, m);
    var bs := f.blockSize;
    var blocks, rest := Quot(|data|, bs), Rem(|data|, bs);
    Spot(bs, |data|);
    FitsBlocks(bs, m, index, blocks, rest);
    var whole := |data| - rest;
    part := {};
    ok, written := WriteBlocks(f, m, index, blocks, data[..whole]);
    assert data[..whole][..written] == data[..written];
    if ok && rest != 0 {
      ghost var v1, t1, d1 := f.V(), f.tree, Bytes(f, m);
      SolidAt(t, f.b, m, index + blocks);
      ok, part := WriteSome(f, m, index + blocks, 0, data[whole..]);
      FilledTransitive(v, t, v1, t1, f.V(), f.tree, f.b);
      if ok {
        assert data[whole..] == data[whole..whole + rest] && {} + part == part;
        WroteOn(bs, d, d1, Bytes(f, m), Position(index, bs, 0), data, whole, rest, {}, part);
        written := |data|;
        if part != {} { HoleBefore(v, t, v1, t1, f.b, index + blocks); }
      } else {
        part := {};
      }
    }
  }

  /** A hole that a write of n bytes covers in part: at its start, or at its end. */
  ghost predicate PartHole(t: Tree, b: nat, j: nat, off: nat, n: nat)
    requires 0 < b
  {
    && BlockAt(t, j, b) == 0
    && (|| (j == Quot(off, Span(b)) && Rem(off, Span(b)) != 0)
        || (j == Quot(off + n, Span(b)) && Rem(off + n, Span(b)) != 0))
  }

  lemma EndHole(t: Tree, b: nat, j: nat, off: nat, n: nat)
    requires 0 < b && BlockAt(t, j, b) == 0 && j == Quot(off + n, Span(b)) && Rem(off + n, Span(b)) != 0
    ensures PartHole(t, b, j, off, n)
  {}

  /** The split of a write: where its first block ends, and the rest that starts with a block. */
  lemma SplitWrite(bs: nat, m: nat, off: nat, n: nat)
    requires 0 < bs && off + n <= Position(m, bs, 0)
    ensures off == Position(Quot(off, bs), bs, Rem(off, bs))
    ensures Rem(off, bs) != 0 ==> Quot(off, bs) < m && off + (bs - Rem(off, bs)) == Position(Quot(off, bs) + 1, bs, 0)
    ensures Rem(off, bs) == 0 ==> off == Position(Quot(off, bs), bs, 0)
  {
    Spot(bs, off);
    Along(bs, Quot(off, bs), 0, Rem(off, bs));
    if m <= Quot(off, bs) { Within(bs, m, Quot(off, bs)); }
  }

  lemma EndOfWrite(bs: nat, off: nat, index: nat, n: nat)
    requires 0 < bs && off == Position(index, bs, 0)
    ensures Quot(off + n, bs) == index + Quot(n, bs) && Rem(off + n, bs) == Rem(n, bs)
  {
    assert off + n == (index + n / bs) * bs + n % bs by { AlongBlocks(bs, index, n / bs); }
    DivModUnique(off + n, bs, index + n / bs, n % bs);
  }

  /** rwbytes with data to write, at any offset and of any length within the blocks of the file. The data
      overwrite the bytes of the file from the offset on; only in a hole that they cover in part can
      other bytes change. In a file without holes it cannot fail and allocates nothing. Where it fails for
      want of a block, a prefix has been written. */
  method WriteBytes(f: File, m: nat, offset: nat, data: seq<byte>)
    returns (ok: bool, ghost written: nat, ghost part: set<nat>)
    requires f.Valid() && 0 < f.b && f.blockSize == Span(f.b) && Backed(f.tree, f.b, m)
    requires offset + |data| <= Position(m, Span(f.b), 0)
    modifies f.device`disk, f.device`free, f.device.alloc, f`inode, f`tree
    ensures f.Valid() && Filled(old(f.V()), old(f.tree), f.V(), f.tree, f.b) && Backed(f.tree, f.b, m)
    ensures Settled(old(f.tree), f.tree, f.b, m, ok)
    ensures written <= |data| && (ok ==> written == |data|) && (!ok ==> |f.V().free| <= 1)
    ensures forall j :: j in part ==> j < m && PartHole(old(f.tree), f.b, j, offset, |data|)
    ensures Wrote(Span(f.b), old(Bytes(f, m)), Bytes(f, m), offset, data[..written], part)
  {
    hide Rep, Capacity, BlockAt, Filled, Reaches, Data, Span, Position, Quot, Rem, Wrote, Solid, Device.Valid,
         SameBlocks;
    var bs := f.blockSize;
    var index, start := Quot(offset, bs), Rem(offset, bs);
    SplitWrite(bs, m, offset, |data|);
    if start == 0 {
      EndOfWrite(bs, offset, index, |data|);
      Along(bs, index, 0, |data|);
      ok, written, part := WriteAligned(f, m, index, data);
    } else {
      var done: nat;
      ok, done, part := WriteFirst(f, m, offset, data);
      written := done;
      if ok && done != |data| {
        ok, written, part := WriteRest(f, m, offset, data, done, old(f.V()), old(f.tree), old(Bytes(f, m)), part);
      }
    }
  }

  /** The first part of rwbytes_iovec, for an offset within a block. */
  method WriteFirst(f: File, m: nat, offset: nat, data: seq<byte>)
    returns (ok: bool, written: nat, ghost part: set<nat>)
    requires f.Valid() && 0 < f.b && f.blockSize == Span(f.b) && Backed(f.tree, f.b, m)
    requires offset + |data| <= Position(m, Span(f.b), 0) && Rem(offset, Span(f.b)) != 0
    modifies f.device`disk, f.device`free, f.device.alloc, f`inode, f`tree
    ensures f.Valid() && Filled(old(f.V()), old(f.tree), f.V(), f.tree, f.b) && Backed(f.tree, f.b, m)
    ensures Settled(old(f.tree), f.tree, f.b, m, ok) && (!ok ==> |f.V().free| <= 1)
    ensures ok ==> written == Min(Span(f.b) - Rem(offset, Span(f.b)), |data|)
    ensures !ok ==> written == 0
    ensures forall j :: j in part ==> j < m && PartHole(old(f.tree), f.b, j, offset, |data|)
    ensures Wrote(Span(f.b), old(Bytes(f, m)), Bytes(f, m), offset, data[..written], part)
  {
    hide Rep, Capacity, BlockAt, Filled, Reaches, Data, Span, Position, Quot, Rem, Wrote, Solid, Device.Valid,
         SameBlocks;
    var bs := f.blockSize;
    var index, start := Quot(offset, bs), Rem(offset, bs);
    SplitWrite(bs, m, offset, |data|);
    SolidAt(f.tree, f.b, m, index);
    NothingWrote(bs, Bytes(f, m), offset);
    written := Min(bs - start, |data|);
    ok, part := WriteSome(f, m, index, start, data[..written]);
    if !ok {
      written, part := 0, {};
      assert data[..0] == [];
    }
  }

  /** What follows the first part. */
  method WriteRest(f: File, m: nat, offset: nat, data: seq<byte>, done: nat, ghost v: Volume, ghost t: Tree,
                   ghost d: seq<byte>, ghost part1: set<nat>)
    returns (ok: bool, ghost written: nat, ghost part: set<nat>)
    requires f.Valid() && 0 < f.b && f.blockSize == Span(f.b) && Backed(f.tree, f.b, m)
    requires offset + |data| <= Position(m, Span(f.b), 0) && Rem(offset, Span(f.b)) != 0
    requires done == Span(f.b) - Rem(offset, Span(f.b)) < |data|
    requires Filled(v, t, f.V(), f.tree, f.b) && Settled(t, f.tree, f.b, m, true)
    requires forall j :: j in part1 ==> j < m && PartHole(t, f.b, j, offset, |data|)
    requires Wrote(Span(f.b), d, Bytes(f, m), offset, data[..done], part1)
    modifies f.device`disk, f.device`free, f.device.alloc, f`inode, f`tree
    ensures f.Valid() && Filled(v, t, f.V(), f.tree, f.b) && Backed(f.tree, f.b, m)
    ensures Settled(t, f.tree, f.b, m, ok)
    ensures written <= |data| && (ok ==> written == |data|) && (!ok ==> |f.V().free| <= 1)
    ensures forall j :: j in part ==> j < m && PartHole(t, f.b, j, offset, |data|)
    ensures Wrote(Span(f.b), d, Bytes(f, m), offset, data[..written], part)
  {
    hide Rep, Capacity, BlockAt, Filled, Reaches, Data, Span, Position, Quot, Rem, Wrote, Solid, PartHole,
         Device.Valid, SameBlocks;
    ghost var v1, t1, d1 := f.V(), f.tree, Bytes(f, m);
    var bs := f.blockSize;
    var index := Quot(offset, bs) + 1;
    SplitWrite(bs, m, offset, |data|);
    EndOfWrite(bs, offset + done, index, |data| - done);
    Along(bs, index, 0, |data| - done);
    ok, written, part := WriteAligned(f, m, index, data[done..]);
    FilledTransitive(v, t, v1, t1, f.V(), f.tree, f.b);
    assert data[done..][..written] == data[done..done + written];
    Within(bs, index, index + Quot(|data| - done, bs));
    WroteOn(bs, d, d1, Bytes(f, m), offset, data, done, written, part1, part);
    forall j | j in part
      ensures PartHole(t, f.b, j, offset, |data|)
    {
      HoleBefore(v, t, v1, t1, f.b, j);
      EndHole(t, f.b, j, offset, |data|);
    }
    written, part := done + written, part1 + part;
  }

  // ----- Reading

  /** rwblock_iovec with bytes to read; a hole reads as zeros. */
  method ReadInBlock(f: File, index: nat, start: nat, count: nat) returns (out: seq<byte>)
    requires f.Valid() && 0 < f.b && f.blockSize == Span(f.b) && index < Capacity(f.b) && Reaches(f.tree, index, f.b)
    requires start + count <= f.blockSize
    ensures out == BlockBytes(f.device.disk, f.tree, f.b, index)[start..start + count]
  {
    hide Rep, Capacity, BlockAt, BytesOf, Reaches, Pointers, Device.Valid;
    DataBlock(f.V(), f.inode, f.tree, f.b, f.spb, index);
    var x := f.GetInodeBlock(index);
    if x == 0 {
      NoBlockZero(f.V(), f.inode, f.tree, f.b, f.spb);
      out := seq(count, _ => 0);
    } else {
      out := BytesOf(f.device.disk[x])[start..start + count];
    }
  }

  lemma NoBlockZero(v: Volume, n: Inode, t: Tree, b: nat, spb: nat)
    requires Rep(v, n, t, b, spb)
    ensures 0 !in v.disk
  {}

  lemma BlockSlice(disk: map<nat, seq<nat>>, t: Tree, b: nat, m: nat, index: nat, start: nat, count: nat)
    requires 0 < b && index < m && start + count <= Span(b)
    ensures Position(index, Span(b), start) + count <= Position(m, Span(b), 0)
    ensures Data(disk, t, b, m)[Position(index, Span(b), start)..Position(index, Span(b), start) + count]
         == BlockBytes(disk, t, b, index)[start..start + count]
  {
    hide BlockBytes, Span, Position, Quot, Rem;
    var bs := Span(b);
    Along(bs, index, start, count);
    Inside(bs, m, index, start + count);
    var p := Position(index, bs, start);
    var left, right := Data(disk, t, b, m)[p..p + count], BlockBytes(disk, t, b, index)[start..start + count];
    forall k | 0 <= k < count
      ensures left[k] == right[k]
    {
      SpotIn(bs, m, index, start, count, p + k);
    }
  }

  /** rwblocks_iovec with whole blocks to read. */
  method ReadBlocks(f: File, m: nat, index: nat, count: nat) returns (out: seq<byte>)
    requires f.Valid() && 0 < f.b && f.blockSize == Span(f.b) && Backed(f.tree, f.b, m) && index + count <= m
    ensures Position(index + count, Span(f.b), 0) <= |Bytes(f, m)|
    ensures Position(index, Span(f.b), 0) <= Position(index + count, Span(f.b), 0)
    ensures out == Bytes(f, m)[Position(index, Span(f.b), 0)..Position(index + count, Span(f.b), 0)]
  {
    hide Rep, Capacity, BlockAt, BlockBytes, Reaches, Data, Span, Position, Device.Valid;
    var bs, i := f.blockSize, 0;
    out := [];
    Within(bs, index + count, m);
    Within(bs, index, index + count);
    while i < count
      invariant i <= count && Position(index, bs, 0) <= Position(index + i, bs, 0) <= |Bytes(f, m)|
      invariant out == Bytes(f, m)[Position(index, bs, 0)..Position(index + i, bs, 0)]
    {
      BlockSlice(f.device.disk, f.tree, f.b, m, index + i, 0, bs);
      Along(bs, index + i, 0, bs);
      var block := ReadInBlock(f, index + i, 0, bs);
      out := out + block;
      i := i + 1;
    }
  }

  /** The middle and the last part of rwbytes_iovec. */
  method ReadAligned(f: File, m: nat, index: nat, count: nat) returns (out: seq<byte>)
    requires f.Valid() && 0 < f.b && f.blockSize == Span(f.b) && Backed(f.tree, f.b, m)
    requires Position(index, Span(f.b), 0) + count <= Position(m, Span(f.b), 0)
    ensures Position(index, Span(f.b), 0) + count <= |Bytes(f, m)|
    ensures out == Bytes(f, m)[Position(index, Span(f.b), 0)..Position(index, Span(f.b), 0) + count]
  {
    hide Rep, Capacity, BlockAt, BlockBytes, Reaches, Data, Span, Position, Quot, Rem, Device.Valid;
    var bs := f.blockSize;
    var blocks, rest := Quot(count, bs), Rem(count, bs);
    Spot(bs, count);
    Along(bs, index, 0, count);
    FitsBlocks(bs, m, index, blocks, rest);
    out := ReadBlocks(f, m, index, blocks);
    if rest != 0 {
      BlockSlice(f.device.disk, f.tree, f.b, m, index + blocks, 0, rest);
      var last := ReadInBlock(f, index + blocks, 0, rest);
      out := out + last;
    }
  }

  /** rwbytes with bytes to read, at any offset and of any length within the blocks of the file: a slice
      of the bytes of the file. */
  method ReadBytes(f: File, m: nat, offset: nat, count: nat) returns (out: seq<byte>)
    requires f.Valid() && 0 < f.b && f.blockSize == Span(f.b) && Backed(f.tree, f.b, m)
    requires offset + count <= Position(m, Span(f.b), 0)
    ensures offset + count <= |Bytes(f, m)| && out == Bytes(f, m)[offset..offset + count]
  {
    hide Rep, Capacity, BlockAt, BlockBytes, Reaches, Data, Span, Position, Quot, Rem, Device.Valid;
    var bs := f.blockSize;
    var index, start := Quot(offset, bs), Rem(offset, bs);
    SplitWrite(bs, m, offset, count);
    if start == 0 {
      out := ReadAligned(f, m, index, count);
      return;
    }
    var done := Min(bs - start, count);
    BlockSlice(f.device.disk, f.tree, f.b, m, index, start, done);
    out := ReadInBlock(f, index, start, done);
    if done != count {
      var more := ReadAligned(f, m, index + 1, count - done);
      out := out + more;
    }
  }
}
