/**
 Directories of kernel-src/fs/ext2.c on disk: lookup, removal and insertion read the whole directory file
 into a buffer, work on the records there, and write the bytes that have changed back to the blocks.
 */
module Ext2DirFiles {
  import opened Arith
  import opened Common
  import opened Ext2Tree
  import opened Ext2Inode
  import opened Ext2Data
  import opened Ext2FileSystem
  import opened Ext2Files
  import opened Ext2Dir

  /** File id of a file system is a directory with the given records. */
  ghost predicate HoldsDir(m: map<nat, seq<byte>>, id: nat, g: Dir, bs: nat) {
    id in m && DirOk(m[id], g, bs)
  }

  /** Only one file has changed. */
  ghost predicate OthersKept(m: map<nat, seq<byte>>, m': map<nat, seq<byte>>, id: nat) {
    id in m' && m' == m[id := m'[id]]
  }

  lemma SizeOf(fs: FileSystem, id: nat)
    requires 0 < fs.b && id in fs.files
    ensures id in AllBytes(fs) && |AllBytes(fs)[id]| == fs.files[id].size
  {
    hide FileBytes;
  }

  /** The directory as a buffer. */
  method Loaded(fs: FileSystem, id: nat, ghost g: Dir) returns (d: Directory)
    requires AllSound(fs) && id in fs.files && HoldsDir(AllBytes(fs), id, g, fs.blockSize)
    ensures fresh(d) && d.Valid() && d.dir == g && d.blockSize == fs.blockSize
    ensures id in AllBytes(fs) && d.data == AllBytes(fs)[id]
  {
    hide FileSystem.Valid, AllWhole, AllBytes, DirOk, Span;
    SizeOf(fs, id);
    var data := ReadFile(fs, id, 0, fs.files[id].size);
    assert data == AllBytes(fs)[id];
    d := new Directory.Load(fs.blockSize, data, g);
  }

  /** findindir. */
  method Lookup(fs: FileSystem, id: nat, ghost g: Dir, name: Name) returns (inode: nat)
    requires AllSound(fs) && id in fs.files && HoldsDir(AllBytes(fs), id, g, fs.blockSize)
    ensures Named(g) && inode == (if name in Ext2Dir.Contents(g) then Ext2Dir.Contents(g)[name] else 0)
  {
    hide FileSystem.Valid, AllWhole, AllBytes, Geometry, Ext2Dir.Stored, Named, Ext2Dir.Contents, Span;
    var d := Loaded(fs, id, g);
    inode := d.Find(name);
  }

  /** Bytes of the buffer are written back to the file. */
  method WriteBack(fs: FileSystem, id: nat, d: Directory, from: nat, count: nat)
    requires AllSound(fs) && id in fs.files && id in AllBytes(fs) && OnlyAt(AllBytes(fs)[id], d.data, from, count)
    modifies fs.device`disk, fs.device`free, fs.device.alloc, fs.files[id]
    ensures AllSound(fs) && fs.files == old(fs.files)
    ensures AllBytes(fs) == old(AllBytes(fs))[id := d.data]
  {
    hide FileSystem.Valid, AllWhole, AllBytes, Span, Ext2Dir.Write;
    ghost var m := AllBytes(fs);
    WrittenBack(m[id], d.data, from, count);
    var n := WriteFile(fs, id, from, d.data[from..from + count]);
    if n == 0 {
      assert m[id] == d.data && m[id := m[id]] == m;
    } else {
      assert d.data[from..from + count][..n] == d.data[from..from + count];
    }
  }

  /** removedent: the name is gone from the directory on disk, and no other file has changed. */
  method Unlink(fs: FileSystem, id: nat, ghost g: Dir, name: Name) returns (inode: nat, ghost g': Dir)
    requires AllSound(fs) && id in fs.files && HoldsDir(AllBytes(fs), id, g, fs.blockSize)
    modifies fs.device`disk, fs.device`free, fs.device.alloc, fs.files[id]
    ensures AllSound(fs) && fs.files == old(fs.files) && OthersKept(old(AllBytes(fs)), AllBytes(fs), id)
    ensures HoldsDir(AllBytes(fs), id, g', fs.blockSize)
    ensures Named(g) && inode == (if name in Ext2Dir.Contents(g) then Ext2Dir.Contents(g)[name] else 0)
    ensures Named(g') && Ext2Dir.Contents(g') == Ext2Dir.Contents(g) - {name}
  {
    hide FileSystem.Valid, AllWhole, AllBytes, Geometry, Ext2Dir.Stored, Named, Ext2Dir.Contents, Span, OnlyAt;
    var d := Loaded(fs, id, g);
    var from, count;
    inode, from, count := d.Remove(name);
    g' := d.dir;
    WriteBack(fs, id, d, from, count);
  }

  /** insertdent of a name that is not there. */
  method Link(fs: FileSystem, id: nat, ghost g: Dir, name: Name, inode: nat, kind: byte, pad: seq<byte>)
    returns (ok: bool, ghost g': Dir)
    requires AllSound(fs) && id in fs.files && HoldsDir(AllBytes(fs), id, g, fs.blockSize)
    requires BlockCount(fs.files[id].size + fs.blockSize, fs.blockSize) <= Capacity(fs.b)
    requires 1 <= |name| <= 255 && name !in Ext2Dir.Contents(g) && 0 < inode < 0x1_0000_0000
    requires 8 + |name| + |pad| == EntLen(|name|)
    modifies fs.device`disk, fs.device`free, fs.device.alloc, fs.files[id]
    ensures AllSound(fs) && fs.files == old(fs.files) && OthersKept(old(AllBytes(fs)), AllBytes(fs), id)
    ensures HoldsDir(AllBytes(fs), id, g', fs.blockSize) && Named(g) && Named(g')
    ensures ok ==> Ext2Dir.Contents(g') == Ext2Dir.Contents(g)[name := inode]
    ensures !ok ==> AllBytes(fs) == old(AllBytes(fs)) && g' == g && fs.device.free == {}
  {
    hide FileSystem.Valid, AllWhole, AllBytes, Geometry, Ext2Dir.Stored, Named, Ext2Dir.Contents, Span, OnlyAt,
         BlockCount, Capacity, EntLen, NoRoom, ResizedOne;
    var d := Loaded(fs, id, g);
    ghost var m := AllBytes(fs);
    ok, g' := true, g;
    var found, _, _, _ := d.SeekRoom(EntLen(|name|));
    var block: seq<byte> := seq(fs.blockSize, _ => 0);
    if !found {
      ok, block := Enlarge(fs, id);
      if !ok {
        return;
      }
    }
    var from, count;
    ok, from, count := d.Insert(name, inode, kind, pad, block, true);
    g' := d.dir;
    WriteBack(fs, id, d, from, count);
  }

  /** The directory gets another block; what it holds is arbitrary. */
  method Enlarge(fs: FileSystem, id: nat) returns (ok: bool, block: seq<byte>)
    requires AllSound(fs) && id in fs.files && id in AllBytes(fs)
    requires BlockCount(fs.files[id].size + fs.blockSize, fs.blockSize) <= Capacity(fs.b)
    modifies fs.device`disk, fs.device`free, fs.device.alloc, fs.files[id]
    ensures AllSound(fs) && fs.files == old(fs.files)
    ensures ok ==> |block| == fs.blockSize && AllBytes(fs) == old(AllBytes(fs))[id := old(AllBytes(fs))[id] + block]
    ensures !ok ==> AllBytes(fs) == old(AllBytes(fs)) && fs.device.free == {}
  {
    hide FileSystem.Valid, AllWhole, AllBytes, Span, BlockCount, Capacity;
    ghost var m := AllBytes(fs);
    SizeOf(fs, id);
    var size := fs.files[id].size;
    block := [];
    ok := ResizeFile(fs, id, size + fs.blockSize);
    if ok {
      block := ReadFile(fs, id, size, fs.blockSize);
      assert AllBytes(fs)[id] == m[id] + block;
    }
  }
}
