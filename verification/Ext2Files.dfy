/**
 Reading, writing and resizing files of kernel-src/fs/ext2.c as sequences of bytes, one file or several
 on one device.
 */
module Ext2Files {
  import opened Arith
  import opened Common
  import opened Ext2Tree
  import opened Ext2Blocks
  import opened Ext2Device
  import opened Ext2Inode
  import opened Ext2Data
  import opened Ext2Alloc
  import opened Ext2FileSystem
  import Ext2Dir

  ghost function BlocksOf(f: File): (m: nat)
    requires 0 < f.blockSize
    reads f
  {
    BlockCount(f.size, f.blockSize)
  }

  /** No holes: every block up to the size is there. Resizing makes no others. */
  ghost predicate Whole(f: File)
    reads f
  {
    && 0 < f.b && f.blockSize == Span(f.b)
    && Backed(f.tree, f.b, BlocksOf(f)) && Solid(f.tree, f.b, BlocksOf(f))
  }

  ghost predicate Sound(f: File)
    reads f, f.device, f.device.alloc
  {
    f.Valid() && Whole(f)
  }

  /** The bytes of a file. */
  ghost function FileBytes(disk: map<nat, seq<nat>>, t: Tree, size: nat, b: nat): (s: seq<byte>)
    requires 0 < b
    ensures |s| == size
  {
    SizeFits(size, Span(b));
    Data(disk, t, b, BlockCount(size, Span(b)))[..size]
  }

  ghost function Contents(f: File): (s: seq<byte>)
    requires 0 < f.b
    reads f, f.device
    ensures |s| == f.size
  {
    FileBytes(f.device.disk, f.tree, f.size, f.b)
  }

  lemma SizeFits(size: nat, bs: nat)
    requires 0 < bs
    ensures size <= Position(BlockCount(size, bs), bs, 0) < size + bs
  {
    var k := size + bs - 1;
    assert k == k / bs * bs + k % bs;
  }

  /** ext2_read: the bytes from an offset on, up to the end of the file. */
  method Read(f: File, offset: nat, size: nat) returns (out: seq<byte>)
    requires f.Valid() && 0 < f.b && f.blockSize == Span(f.b) && Backed(f.tree, f.b, BlocksOf(f))
    ensures out == if f.size <= offset then [] else Contents(f)[offset..Min(offset + size, f.size)]
  {
    hide Rep, Backed, Data, Span, Position, BlockCount, Device.Valid;
    SizeFits(f.size, f.blockSize);
    out := [];
    if offset < f.size && size != 0 {
      var n := Min(offset + size, f.size) - offset;
      out := ReadBytes(f, BlockCount(f.size, f.blockSize), offset, n);
    }
  }

  lemma NoPart(t: Tree, b: nat, m: nat, off: nat, n: nat, part: set<nat>)
    requires 0 < b && Solid(t, b, m) && forall j :: j in part ==> j < m && PartHole(t, b, j, off, n)
    ensures part == {}
  {}

  /** ext2_write to a file without holes: what lies within the file overwrites its bytes, and nothing is
      allocated. */
  method Write(f: File, offset: nat, data: seq<byte>) returns (count: nat)
    requires Sound(f)
    modifies f.device`disk, f.device`free, f.device.alloc, f`inode, f`tree
    ensures Sound(f) && f.tree == old(f.tree) && f.size == old(f.size)
    ensures Filled(old(f.V()), f.tree, f.V(), f.tree, f.b)
    ensures count == if f.size < offset then 0 else Min(|data|, f.size - offset)
    ensures count != 0 ==> Contents(f) == Ext2Dir.Write(old(Contents(f)), offset, data[..count])
    ensures count == 0 ==> Contents(f) == old(Contents(f))
  {
    hide Rep, Backed, Solid, Data, Span, Position, BlockCount, Filled, Wrote, PartHole, Device.Valid;
    ghost var d := Bytes(f, BlocksOf(f));
    SizeFits(f.size, f.blockSize);
    FilledSelf(f.V(), f.tree, f.b);
    if f.size < offset {
      return 0;
    }
    count := Min(|data|, f.size - offset);
    var ok;
    ghost var written, part;
    ok, written, part := WriteBytes(f, BlockCount(f.size, f.blockSize), offset, data[..count]);
    NoPart(f.tree, f.b, BlocksOf(f), offset, count, part);
    assert data[..count][..written] == data[..count];
    WroteExactly(f.blockSize, d, Bytes(f, BlocksOf(f)), offset, data[..count]);
    WriteFront(d, offset, data[..count], f.size);
  }

  lemma WriteFront(d: seq<byte>, off: nat, data: seq<byte>, n: nat)
    requires off + |data| <= n <= |d|
    ensures Ext2Dir.Write(d, off, data)[..n] == Ext2Dir.Write(d[..n], off, data)
    ensures data == [] ==> Ext2Dir.Write(d, off, data) == d
    ensures Ext2Dir.Write(d, off, data)[off..off + |data|] == data
  {}

  // ----- Resizing

  lemma ReachedBy(v: Volume, n: Inode, t: Tree, b: nat, spb: nat, j: nat)
    requires Rep(v, n, t, b, spb) && 0 < b && j < Capacity(b) && BlockAt(t, j, b) != 0
    ensures Reaches(t, j, b)
  {
    hide Stored, Owned, VolumeOk, Sectors, Capacity;
  }

  lemma SolidIsBacked(v: Volume, n: Inode, t: Tree, b: nat, spb: nat, m: nat)
    requires Rep(v, n, t, b, spb) && 0 < b && m <= Capacity(b) && Solid(t, b, m)
    ensures Backed(t, b, m)
  {
    hide Rep, Capacity, BlockAt, Reaches;
    forall j | 0 <= j < m
      ensures Reaches(t, j, b)
    {
      ReachedBy(v, n, t, b, spb, j);
    }
  }

  lemma ResizedSolid(t: Tree, t': Tree, was: nat, now: nat, b: nat)
    requires 0 < b && now <= Capacity(b) && Resized(t, t', was, now, b) && Solid(t, b, was)
    ensures Solid(t', b, now) && forall j :: 0 <= j < Min(was, now) ==> BlockAt(t', j, b) == BlockAt(t, j, b)
  {
    hide BlockAt, Capacity;
  }

  /** Blocks that stay read as before. */
  lemma StayingData(v: Volume, n: Inode, t: Tree, v': Volume, n': Inode, t': Tree, b: nat, spb: nat, m: nat, m': nat,
                    k: nat)
    requires Rep(v, n, t, b, spb) && Rep(v', n', t', b, spb) && OnlyPointers(v.disk, v'.disk, t') && 0 < b
    requires k <= m && k <= m' && k <= Capacity(b) && forall j :: 0 <= j < k ==> BlockAt(t', j, b) == BlockAt(t, j, b)
    ensures Position(k, Span(b), 0) <= Position(m, Span(b), 0) && Position(k, Span(b), 0) <= Position(m', Span(b), 0)
    ensures Data(v'.disk, t', b, m')[..Position(k, Span(b), 0)] == Data(v.disk, t, b, m)[..Position(k, Span(b), 0)]
  {
    hide Rep, OnlyPointers, BlockBytes, BlockAt, Capacity, Span, Position, Quot, Rem;
    Within(Span(b), k, m);
    Within(Span(b), k, m');
    forall i | 0 <= i < Position(k, Span(b), 0)
      ensures Data(v'.disk, t', b, m')[i] == Data(v.disk, t, b, m)[i]
    {
      SpotIn(Span(b), k, 0, 0, 0, i);
      BlockKept(v, n, t, v', n', t', b, spb, Quot(i, Span(b)));
    }
  }

  lemma CountMonotone(a: nat, c: nat, bs: nat)
    requires 0 < bs && a <= c
    ensures BlockCount(a, bs) <= BlockCount(c, bs)
  {
    var y := c + bs - 1;
    assert y < (y / bs + 1) * bs;
    QuotientBound(a + bs - 1, bs, y / bs + 1);
  }

  lemma PartlySolid(t: Tree, t': Tree, was: nat, now: nat, b: nat)
    requires 0 < b && was <= now <= Capacity(b) && PartlyResized(t, t', was, now, b) && Solid(t, b, was)
    ensures Solid(t', b, was) && forall j :: 0 <= j < was ==> BlockAt(t', j, b) == BlockAt(t, j, b)
  {
    hide BlockAt, Capacity;
  }

  lemma SameFront(d: seq<byte>, d': seq<byte>, p: nat, k: nat)
    requires k <= p <= |d| && p <= |d'| && d'[..p] == d[..p]
    ensures d'[..k] == d[..k]
  {
    assert d[..k] == d[..p][..k] && d'[..k] == d'[..p][..k];
  }

  /** resizeinode of a file without holes: it has none afterwards, and the bytes up to the smaller size are
      as before. Where growing fails, nothing has changed. */
  method SetSize(f: File, newSize: nat) returns (ok: bool, ghost lost: set<nat>)
    requires Sound(f) && BlockCount(newSize, f.blockSize) <= Capacity(f.b)
    modifies f.device`disk, f.device`free, f.device.alloc, f`inode, f`tree, f`size
    ensures f.Valid() && SameBlocks(f.V(), f.tree, old(f.V()), old(f.tree), lost) && lost !! Blocks(f.V(), f.tree)
    ensures ok ==> Sound(f) && f.size == newSize && lost == {}
    ensures !ok ==> f.size == old(f.size) && |lost| <= 1 && f.V().free == {}
    ensures !ok && f.size <= newSize ==> Sound(f) && Contents(f) == old(Contents(f))
    ensures ok ==> var k := Min(old(f.size), newSize); Contents(f)[..k] == old(Contents(f))[..k]
  {
    hide Rep, Backed, Solid, Data, Span, Position, BlockCount, SameBlocks, Blocks, OnlyPointers, KeepsIndirect,
         Resized, PartlyResized, Capacity, BlockAt, Device.Valid;
    ghost var v, n, t, was := f.V(), f.inode, f.tree, BlocksOf(f);
    ghost var size, now := f.size, BlockCount(newSize, f.blockSize);
    SizeFits(size, f.blockSize);
    SizeFits(newSize, f.blockSize);
    BackedFits(t, f.b, was);
    ok, lost := f.Resize(newSize);
    if ok {
      ResizedSolid(t, f.tree, was, now, f.b);
      SolidIsBacked(f.V(), f.inode, f.tree, f.b, f.spb, now);
      ghost var k := Min(size, newSize);
      CountMonotone(k, Max(size, newSize), f.blockSize);
      SizeFits(k, f.blockSize);
      StayingData(v, n, t, f.V(), f.inode, f.tree, f.b, f.spb, was, now, Min(was, now));
      SameFront(old(Bytes(f, was)), Bytes(f, now), Position(Min(was, now), Span(f.b), 0), k);
    } else if size <= newSize {
      CountMonotone(size, newSize, f.blockSize);
      PartlySolid(t, f.tree, was, now, f.b);
      SolidIsBacked(f.V(), f.inode, f.tree, f.b, f.spb, was);
      StayingData(v, n, t, f.V(), f.inode, f.tree, f.b, f.spb, was, was, was);
    }
  }

  function Max(a: nat, c: nat): (m: nat) {
    if a <= c then c else a
  }

  lemma BackedFits(t: Tree, b: nat, m: nat)
    requires 0 < b && Backed(t, b, m)
    ensures m <= Capacity(b)
  {}

  // ----- Several files

  lemma OtherData(v: Volume, t: Tree, v': Volume, t': Tree, more: set<nat>, n: Inode, u: Tree, b: nat, spb: nat, m: nat)
    requires Confined(v, t, v', t', more) && Rep(v, n, u, b, spb) && 0 < b && m <= Capacity(b)
    requires u.owner.Keys !! t.owner.Keys && more !! u.owner.Keys
    ensures Data(v'.disk, u, b, m) == Data(v.disk, u, b, m)
  {
    hide Rep, Confined, Capacity, BlockAt, BytesOf, Span, Position, Quot, Rem;
    RepOwned(v, n, u, b, spb);
    NoBlockZero(v, n, u, b, spb);
    StayApart(v, t, v', t', more, u);
    SameDisk(v, t, v', t', more);
    forall i | 0 <= i < Position(m, Span(b), 0)
      ensures Data(v'.disk, u, b, m)[i] == Data(v.disk, u, b, m)[i]
    {
      SpotIn(Span(b), m, 0, 0, 0, i);
      DataBlock(v, n, u, b, spb, Quot(i, Span(b)));
    }
  }

  lemma RepOwned(v: Volume, n: Inode, t: Tree, b: nat, spb: nat)
    requires Rep(v, n, t, b, spb)
    ensures Owned(v, t)
  {}

  /** A file system whose files have no holes. */
  ghost predicate AllSound(fs: FileSystem)
    reads fs, fs.device, fs.device.alloc, fs.inodes, fs.files.Values
  {
    fs.Valid() && 0 < fs.b && fs.blockSize == Span(fs.b) && AllWhole(fs.files)
  }

  ghost predicate AllWhole(files: map<nat, File>)
    reads files.Values
  {
    forall i :: i in files ==> Whole(files[i])
  }

  ghost function AllOf(disk: map<nat, seq<nat>>, ts: map<nat, Tree>, sizes: map<nat, nat>, b: nat):
    (m: map<nat, seq<byte>>)
    requires 0 < b
  {
    map i | i in ts && i in sizes :: FileBytes(disk, ts[i], sizes[i], b)
  }

  /** The file system as a map from inode numbers to the bytes of the files. */
  ghost function AllBytes(fs: FileSystem): (m: map<nat, seq<byte>>)
    reads fs, fs.device, fs.files.Values
  {
    if fs.b == 0 then map[] else AllOf(fs.device.disk, fs.Trees(), fs.Sizes(), fs.b)
  }

  /** Another file of the same file system. */
  lemma OtherContents(v: Volume, ns: map<nat, Inode>, ts: map<nat, Tree>, b: nat, spb: nat, k: nat, v': Volume,
                      t': Tree, more: set<nat>, j: nat, m: nat)
    requires AllOk(v, ns, ts, b, spb) && k in ns && j in ns && j != k && j in ts && k in ts && 0 < b && m <= Capacity(b)
    requires Confined(v, ts[k], v', t', more) && Unowned(ts, more)
    ensures Data(v'.disk, ts[j], b, m) == Data(v.disk, ts[j], b, m)
  {
    hide Rep, Confined, Capacity, Data;
    assert Disjoint(ts, j, k);
    OtherData(v, ts[k], v', t', more, ns[j], ts[j], b, spb, m);
  }

  ghost predicate Addressed(sizes: map<nat, nat>, b: nat)
    requires 0 < b
  {
    forall i :: i in sizes ==> BlockCount(sizes[i], Span(b)) <= Capacity(b)
  }

  /** One file changes within its own and the free blocks: no other file reads differently. */
  lemma OneFile(v: Volume, ns: map<nat, Inode>, ts: map<nat, Tree>, sizes: map<nat, nat>, b: nat, spb: nat, id: nat,
                v': Volume, t': Tree, size': nat, more: set<nat>)
    requires AllOk(v, ns, ts, b, spb) && id in ts && ts.Keys == sizes.Keys && 0 < b && Addressed(sizes, b)
    requires Confined(v, ts[id], v', t', more) && Unowned(ts, more)
    ensures AllOf(v'.disk, ts[id := t'], sizes[id := size'], b)
         == AllOf(v.disk, ts, sizes, b)[id := FileBytes(v'.disk, t', size', b)]
  {
    hide AllOk, Confined, Unowned, Data, Capacity, Span, BlockCount;
    forall i | i in ts && i != id
      ensures FileBytes(v'.disk, ts[i], sizes[i], b) == FileBytes(v.disk, ts[i], sizes[i], b)
    {
      SameNumbers(v, ns, ts, b, spb);
      OtherContents(v, ns, ts, b, spb, id, v', t', more, i, BlockCount(sizes[i], Span(b)));
    }
  }

  lemma SameNumbers(v: Volume, ns: map<nat, Inode>, ts: map<nat, Tree>, b: nat, spb: nat)
    requires AllOk(v, ns, ts, b, spb)
    ensures ns.Keys == ts.Keys
  {}

  lemma AllAddressed(fs: FileSystem)
    requires 0 < fs.b && AllWhole(fs.files) && fs.Valid()
    ensures Addressed(fs.Sizes(), fs.b)
  {
    hide AllOk, Separate, Device.Valid, Allocator.Valid, Capacity, BlockCount, Span;
    forall i | i in fs.files
      ensures BlockCount(fs.files[i].size, Span(fs.b)) <= Capacity(fs.b)
    {
      fs.IsKnown(i);
      assert Whole(fs.files[i]);
    }
  }

  /** What a write does to a map of files. */
  ghost predicate WroteOne(m: map<nat, seq<byte>>, m': map<nat, seq<byte>>, id: nat, off: nat, data: seq<byte>,
                           count: nat) {
    && id in m && count == (if |m[id]| < off then 0 else Min(|data|, |m[id]| - off))
    && m' == if count == 0 then m else m[id := Ext2Dir.Write(m[id], off, data[..count])]
  }

  /** ext2_write to one file among several: its bytes change as said, and those of no other file. */
  method WriteFile(fs: FileSystem, id: nat, offset: nat, data: seq<byte>) returns (count: nat)
    requires AllSound(fs) && id in fs.files
    modifies fs.device`disk, fs.device`free, fs.device.alloc, fs.files[id]
    ensures AllSound(fs) && fs.files == old(fs.files)
    ensures WroteOne(old(AllBytes(fs)), AllBytes(fs), id, offset, data, count)
  {
    hide AllOk, Rep, SameBlocks, Filled, Blocks, Unowned, Confined, FileSystem.AllKnown, Separate, Device.Valid,
         Allocator.Valid, Capacity, Backed, Solid, Data, Span, BlockCount, Ext2Dir.Write, FileBytes, Addressed, AllOf,
         WroteOne, Whole;
    fs.IsKnown(id);
    SeparateFrom(fs.files, id);
    var f := fs.files[id];
    ghost var v, ns, ts, sizes := fs.device.View(), fs.Inodes(), fs.Trees(), fs.Sizes();
    ghost var all, was := AllBytes(fs), Contents(f);
    AllAt(v.disk, ts, sizes, fs.b, id);
    AllAddressed(fs);
    InodeOk(v, ns, ts, fs.b, fs.spb, id);
    NoneUnowned(ts);
    count := Write(f, offset, data);
    FilledIsSame(v, ts[id], f.V(), f.tree, f.b);
    SameIsConfined(v, ts[id], fs.device.View(), f.tree, {});
    fs.OneInode(id);
    fs.OneTree(id);
    fs.OneSize(id);
    OneChanged(fs, id, v, ns, ts, sizes, {});
    WroteIs(all, id, was, Contents(f), offset, data, count);
  }

  /** The file system after a change of one file. */
  lemma OneChanged(fs: FileSystem, id: nat, v: Volume, ns: map<nat, Inode>, ts: map<nat, Tree>, sizes: map<nat, nat>,
                   more: set<nat>)
    requires id in fs.files && id in ts && ts.Keys == sizes.Keys && 0 < fs.b && Addressed(sizes, fs.b)
    requires fs.device.Valid() && fs.inodes.Valid() && fs.inodes != fs.device.alloc && fs.AllKnown()
    requires Separate(fs.files)
    requires AllOk(v, ns, ts, fs.b, fs.spb)
    requires Rep(fs.device.View(), fs.files[id].inode, fs.files[id].tree, fs.b, fs.spb)
    requires Confined(v, ts[id], fs.device.View(), fs.files[id].tree, more) && Unowned(ts, more)
    requires fs.Inodes() == ns[id := fs.files[id].inode] && fs.Trees() == ts[id := fs.files[id].tree]
    requires fs.Sizes() == sizes[id := fs.files[id].size]
    ensures fs.Valid()
    ensures AllBytes(fs) == AllOf(v.disk, ts, sizes, fs.b)[id := FileBytes(fs.device.disk, fs.files[id].tree,
                                                                            fs.files[id].size, fs.b)]
  {
    hide AllOk, Rep, Confined, Unowned, FileSystem.AllKnown, Separate, Device.Valid, Allocator.Valid, FileBytes,
         AllOf, Addressed;
    SameNumbers(v, ns, ts, fs.b, fs.spb);
    OneChanges(v, ns, ts, fs.b, fs.spb, id, fs.device.View(), fs.files[id].inode, fs.files[id].tree, more);
    OneFile(v, ns, ts, sizes, fs.b, fs.spb, id, fs.device.View(), fs.files[id].tree, fs.files[id].size, more);
  }

  lemma AllAt(disk: map<nat, seq<nat>>, ts: map<nat, Tree>, sizes: map<nat, nat>, b: nat, id: nat)
    requires 0 < b && id in ts && id in sizes
    ensures id in AllOf(disk, ts, sizes, b) && AllOf(disk, ts, sizes, b)[id] == FileBytes(disk, ts[id], sizes[id], b)
  {}

  lemma WroteIs(all: map<nat, seq<byte>>, id: nat, s: seq<byte>, s': seq<byte>, off: nat, data: seq<byte>, count: nat)
    requires id in all && all[id] == s && count == (if |s| < off then 0 else Min(|data|, |s| - off))
    requires s' == if count == 0 then s else Ext2Dir.Write(s, off, data[..count])
    ensures WroteOne(all, all[id := s'], id, off, data, count)
  {
    assert all[id := s] == all;
  }

  lemma FilledIsSame(v: Volume, t: Tree, v': Volume, t': Tree, b: nat)
    requires 0 < b && Filled(v, t, v', t', b)
    ensures SameBlocks(v, t, v', t', {})
  {}

  /** What a resize does to a map of files: the bytes up to the smaller size stay. */
  ghost predicate ResizedOne(m: map<nat, seq<byte>>, m': map<nat, seq<byte>>, id: nat, size: nat) {
    && id in m && id in m' && |m'[id]| == size && m' == m[id := m'[id]]
    && var k := Min(|m[id]|, size); m'[id][..k] == m[id][..k]
  }

  /** resizeinode of one file among several. */
  method ResizeFile(fs: FileSystem, id: nat, newSize: nat) returns (ok: bool)
    requires AllSound(fs) && id in fs.files && BlockCount(newSize, fs.blockSize) <= Capacity(fs.b)
    modifies fs.device`disk, fs.device`free, fs.device.alloc, fs.files[id]
    ensures fs.Valid() && fs.files == old(fs.files)
    ensures ok ==> AllSound(fs) && ResizedOne(old(AllBytes(fs)), AllBytes(fs), id, newSize)
    ensures !ok ==> fs.device.free == {} && fs.files[id].size == old(fs.files[id].size)
    ensures !ok && fs.files[id].size <= newSize ==> AllSound(fs) && AllBytes(fs) == old(AllBytes(fs))
  {
    hide AllOk, Rep, SameBlocks, Filled, Blocks, Unowned, Confined, FileSystem.AllKnown, Separate, Device.Valid,
         Allocator.Valid, Capacity, Backed, Solid, Data, Span, BlockCount, FileBytes, Addressed, AllOf, ResizedOne,
         Whole;
    fs.IsKnown(id);
    SeparateFrom(fs.files, id);
    var f := fs.files[id];
    ghost var v, ns, ts, sizes := fs.device.View(), fs.Inodes(), fs.Trees(), fs.Sizes();
    ghost var all, was := AllBytes(fs), Contents(f);
    AllAt(v.disk, ts, sizes, fs.b, id);
    AllAddressed(fs);
    InodeOk(v, ns, ts, fs.b, fs.spb, id);
    NoneUnowned(ts);
    ghost var lost;
    ok, lost := SetSize(f, newSize);
    OnlyLost(v, ts[id], fs.device.View(), f.tree, lost);
    fs.OneInode(id);
    fs.OneTree(id);
    fs.OneSize(id);
    OneChanged(fs, id, v, ns, ts, sizes, {});
    ResizedIs(all, id, was, Contents(f));
  }

  lemma ResizedIs(all: map<nat, seq<byte>>, id: nat, s: seq<byte>, s': seq<byte>)
    requires id in all && all[id] == s
    ensures (var k := Min(|s|, |s'|); s'[..k] == s[..k]) ==> ResizedOne(all, all[id := s'], id, |s'|)
    ensures s' == s ==> all[id := s'] == all
  {}

  lemma NothingYet(f: File)
    requires 0 < f.b && f.blockSize == Span(f.b) && f.size == 0
    ensures Whole(f) && Contents(f) == []
  {
    assert BlockCount(0, f.blockSize) == 0 by { DivModUnique(f.blockSize - 1, f.blockSize, 0, f.blockSize - 1); }
  }

  lemma AllAdded(disk: map<nat, seq<nat>>, ts: map<nat, Tree>, sizes: map<nat, nat>, b: nat, id: nat, t: Tree, n: nat)
    requires 0 < b && ts.Keys == sizes.Keys
    ensures AllOf(disk, ts[id := t], sizes[id := n], b) == AllOf(disk, ts, sizes, b)[id := FileBytes(disk, t, n, b)]
    ensures AllOf(disk, ts - {id}, sizes - {id}, b) == AllOf(disk, ts, sizes, b) - {id}
    ensures id !in ts ==> id !in AllOf(disk, ts, sizes, b)
  {
    hide FileBytes;
  }

  /** An empty file under the least free number. */
  method CreateFile(fs: FileSystem) returns (id: nat)
    requires AllSound(fs)
    modifies fs`files, fs.inodes
    ensures AllSound(fs)
    ensures id == 0 ==> AllBytes(fs) == old(AllBytes(fs))
    ensures id != 0 ==> id !in old(AllBytes(fs)) && AllBytes(fs) == old(AllBytes(fs))[id := []]
  {
    hide FileSystem.Valid, FileSystem.Numbered, Whole, FileBytes, AllOf, Span;
    ghost var ts, sizes := fs.Trees(), fs.Sizes();
    id := fs.Create();
    if id != 0 {
      var f := fs.files[id];
      NothingYet(f);
      fs.AddedViews(id);
      fs.AddedSizes(id);
      AllAdded(fs.device.disk, ts, sizes, fs.b, id, f.tree, f.size);
    }
  }

  /** freeinode of one file among several. */
  method RemoveFile(fs: FileSystem, id: nat)
    requires AllSound(fs) && id in fs.files
    modifies fs`files, fs.device`free, fs.device.alloc, fs.inodes
    ensures AllSound(fs) && AllBytes(fs) == old(AllBytes(fs)) - {id}
  {
    hide FileSystem.Valid, Whole, FileBytes, AllOf, Span;
    AllAdded(fs.device.disk, fs.Trees(), fs.Sizes(), fs.b, id, fs.files[id].tree, 0);
    fs.FreeInode(id);
    fs.RemovedViews(id);
    fs.RemovedSizes(id);
  }

  /** What a read gives, of a map of files. */
  predicate ReadOne(m: map<nat, seq<byte>>, id: nat, off: nat, size: nat, out: seq<byte>) {
    id in m && out == if |m[id]| <= off then [] else m[id][off..Min(off + size, |m[id]|)]
  }

  /** ext2_read of one file among several. */
  method ReadFile(fs: FileSystem, id: nat, offset: nat, size: nat) returns (out: seq<byte>)
    requires AllSound(fs) && id in fs.files
    ensures ReadOne(AllBytes(fs), id, offset, size, out)
  {
    hide AllOk, Rep, FileSystem.AllKnown, Separate, Device.Valid, Allocator.Valid, Capacity, Backed, Solid, Span,
         FileBytes, BlockCount;
    fs.IsKnown(id);
    InodeOk(fs.device.View(), fs.Inodes(), fs.Trees(), fs.b, fs.spb, id);
    out := Read(fs.files[id], offset, size);
  }

  /** What was written is what is read. */
  lemma ReadBack(m: map<nat, seq<byte>>, m': map<nat, seq<byte>>, id: nat, off: nat, data: seq<byte>, count: nat)
    requires WroteOne(m, m', id, off, data, count) && 0 < count
    ensures id in m' && off + count <= |m'[id]| && m'[id][off..off + count] == data[..count]
    ensures m'[id][..off] == m[id][..off] && m'[id][off + count..] == m[id][off + count..]
    ensures forall j :: j in m && j != id ==> j in m' && m'[j] == m[j]
  {}
}
