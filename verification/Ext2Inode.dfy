/**
 The operations of kernel-src/fs/ext2.c on the block tree of one inode: getinodeblock,
 setinodeblock, resizeinode and freeinode. I/O succeeds; running out of blocks is the one error.
 */
module Ext2Inode {
  import opened Arith
  import opened Common
  import opened Ext2Alloc
  import opened Ext2Tree
  import opened Ext2Device
  import opened Ext2Blocks

  /** The block of the file at an index, or zero. */
  ghost function BlockAt(t: Tree, index: nat, b: nat): (x: nat)
    requires 0 < b
  {
    At(t, PathOf(index, b))
  }

  /** Indirect blocks have been added, and nothing else is different. */
  ghost predicate Grown(t: Tree, t': Tree) {
    && (forall p :: p in t.at ==> p in t'.at && t'.at[p] == t.at[p])
    && (forall p :: p in t'.at && p !in t.at ==> IsIndirect(p))
  }

  ghost predicate SameExcept(t: Tree, t': Tree, index: nat, b: nat)
    requires 0 < b
  {
    forall j :: 0 <= j < Capacity(b) && j != index ==> BlockAt(t', j, b) == BlockAt(t, j, b)
  }

  ghost predicate SameFile(t: Tree, t': Tree, b: nat)
    requires 0 < b
  {
    forall j :: 0 <= j < Capacity(b) ==> BlockAt(t', j, b) == BlockAt(t, j, b)
  }

  lemma GrownSameFile(t: Tree, t': Tree, b: nat)
    requires Grown(t, t') && 0 < b
    ensures SameFile(t, t', b) && KeepsIndirect(t, t')
  {
    forall j | 0 <= j < Capacity(b)
      ensures BlockAt(t', j, b) == BlockAt(t, j, b)
    {
      SplitInverts(j, b);
    }
  }

  lemma GrownTransitive(t: Tree, t1: Tree, t2: Tree)
    requires Grown(t, t1) && Grown(t1, t2)
    ensures Grown(t, t2) && KeepsIndirect(t, t2)
  {}

  lemma RepPositive(v: Volume, n: Inode, t: Tree, b: nat, spb: nat)
    requires Rep(v, n, t, b, spb)
    ensures 0 < b && Grown(t, t)
  {}

  lemma WriteIsUpdate(t: Tree, t1: Tree, p: Path, i: nat, x: nat, index: nat, b: nat, t2: Tree)
    requires 0 < b && Grown(t, t1) && index < Capacity(b)
    requires p + [i] == PathOf(index, b) && IsPlace(t1, p, i, b) && IsData(p + [i]) && t2 == WithChild(t1, p, i, x)
    ensures BlockAt(t2, index, b) == x && SameExcept(t, t2, index, b)
    ensures Reaches(t2, index, b) && KeepsIndirect(t, t2)
  {
    GrownSameFile(t, t1, b);
    forall j | 0 <= j < Capacity(b) && j != index
      ensures BlockAt(t2, j, b) == BlockAt(t, j, b)
    {
      if PathOf(j, b) == PathOf(index, b) { SplitInjective(j, index, b); }
    }
    assert (p + [i])[..|p|] == p;
  }

  lemma PlacedKeeps(t: Tree, p: Path, i: nat, x: nat)
    requires IsData(p + [i])
    ensures KeepsIndirect(t, WithChild(t, p, i, x))
  {}

  lemma StillFresh(v: Volume, t: Tree, v1: Volume, t1: Tree, x: nat)
    requires SameBlocks(v, t, v1, t1, {}) && (x != 0 ==> x in v.disk && x !in Blocks(v, t))
    ensures x != 0 ==> x in v1.disk && x !in Blocks(v1, t1)
  {}

  lemma SameBlocksExtends(v: Volume, t: Tree, v1: Volume, t1: Tree, v2: Volume, t2: Tree, x: nat)
    requires SameBlocks(v, t, v1, t1, {}) && SameBlocks(v1, t1, v2, t2, if x == 0 then {} else {x})
    ensures SameBlocks(v, t, v2, t2, if x == 0 then {} else {x})
  {}

  /** A zeroed block is taken from the free ones and hung in an empty place. */
  lemma AddIndirect(v: Volume, n: Inode, t: Tree, b: nat, spb: nat, p: Path, i: nat, c: nat, v': Volume,
                    n': Inode, t': Tree)
    requires Rep(v, n, t, b, spb) && IsPlace(t, p, i, b) && IsIndirect(p + [i]) && Child(t, p, i) == 0 && c in v.free
    requires p != [] ==> t.at[p] in v.disk && i < |v.disk[t.at[p]]|
    requires v' == Volume(PutDisk(v.disk[c := Zeros(b)], Parent(t, p), p, i, c), v.free - {c})
    requires n' == PutInode(n, p, i, c).(sectcount := n.sectcount + spb) && t' == WithChild(t, p, i, c)
    ensures Rep(v', n', t', b, spb) && SameBlocks(v, t, v', t', {}) && Grown(t, t')
    ensures p + [i] in t'.at && t'.at[p + [i]] == c && OnlyPointers(v.disk, v'.disk, t')
  {
    hide TreeOk, Stored, VolumeOk, NothingBelow, Sectors, ValidPath, IsIndirect, SameBlocks, Grown, OnlyPointers;
    var v1 := Volume(v.disk[c := Zeros(b)], v.free - {c});
    ReserveZeroed(v, n, t, b, spb, c);
    EmptyPlace(t, b, p, i);
    GrownByOne(t, p, i, c);
    PutKeeps(v1, n, t, b, spb, p, i, c, v', n', t');
    ReservedIsKept(v, t, c, v1, v', t');
    ZeroedPointers(v.disk, c, v1.disk, v'.disk, t', p + [i]);
  }

  lemma ZeroedPointers(disk: map<nat, seq<nat>>, c: nat, disk1: map<nat, seq<nat>>, disk': map<nat, seq<nat>>, t: Tree,
                       q: Path)
    requires disk1.Keys == disk.Keys && (forall x :: x in disk && x != c ==> disk1[x] == disk[x])
    requires OnlyPointers(disk1, disk', t) && q in t.at && IsIndirect(q) && t.at[q] == c
    ensures OnlyPointers(disk, disk', t)
  {
    assert c in Pointers(t);
  }

  lemma PointersTransitive(disk: map<nat, seq<nat>>, disk1: map<nat, seq<nat>>, t1: Tree, disk2: map<nat, seq<nat>>,
                           t2: Tree)
    requires OnlyPointers(disk, disk1, t1) && OnlyPointers(disk1, disk2, t2) && (Grown(t1, t2) || KeepsIndirect(t1, t2))
    ensures OnlyPointers(disk, disk2, t2)
  {
    assert Pointers(t1) <= Pointers(t2);
  }

  lemma ReservedIsKept(v: Volume, t: Tree, c: nat, v1: Volume, v': Volume, t': Tree)
    requires c in v.free && c in v.disk && v1.free == v.free - {c} && v1.disk.Keys == v.disk.Keys
    requires SameBlocks(v1, t, v', t', {c}) && forall x :: x in v.disk && x != c ==> v1.disk[x] == v.disk[x]
    ensures SameBlocks(v, t, v', t', {})
  {
    assert v.free - {c} + t.owner.Keys + {c} == v.free + t.owner.Keys;
  }

  lemma ReserveZeroed(v: Volume, n: Inode, t: Tree, b: nat, spb: nat, c: nat)
    requires Rep(v, n, t, b, spb) && c in v.free
    ensures Rep(Volume(v.disk[c := Zeros(b)], v.free - {c}), n, t, b, spb) && c != 0 && c in v.disk && c !in t.owner
  {
    hide TreeOk, Stored, Sectors;
    ZeroedStored(v, n, t, b, c);
    StoredFrame(v.(disk := v.disk[c := Zeros(b)]), n, t, b, v.free - {c}, n.sectcount);
  }

  lemma EmptyPlace(t: Tree, b: nat, p: Path, i: nat)
    requires TreeOk(t, b) && Child(t, p, i) == 0
    ensures p + [i] !in t.at && NothingBelow(t, p + [i]) && (p in t.at ==> t.at[p] in t.owner)
  {
    AbsentBelow(t, b, p + [i]);
  }

  lemma GrownByOne(t: Tree, p: Path, i: nat, c: nat)
    requires IsIndirect(p + [i]) && p + [i] !in t.at && c != 0
    ensures Grown(t, WithChild(t, p, i, c))
  {}

  lemma RootPlace(v: Volume, n: Inode, t: Tree, slot: nat, b: nat, spb: nat)
    requires 12 <= slot < 15 && Rep(v, n, t, b, spb)
    ensures [] + [slot] == [slot] && IsPlace(t, [], slot, b) && IsIndirect([] + [slot]) && Grown(t, t)
    ensures InodeShaped(n) && Root(n, slot) == Child(t, [], slot)
    ensures (Root(n, slot) != 0 ==> [slot] in t.at && t.at[[slot]] == Root(n, slot)) && v.free <= v.disk.Keys
  {}

  lemma EntryPlace(v: Volume, n: Inode, t: Tree, b: nat, spb: nat, p: Path, i: nat)
    requires Rep(v, n, t, b, spb) && p in t.at && i < b && IsIndirect(p + [i])
    ensures IsPlace(t, p, i, b) && p != [] && Grown(t, t) && v.free <= v.disk.Keys
    ensures t.at[p] in v.disk && |v.disk[t.at[p]]| == b && v.disk[t.at[p]][i] == Child(t, p, i)
    ensures Child(t, p, i) != 0 ==> p + [i] in t.at && t.at[p + [i]] == Child(t, p, i)
    ensures t.at[p] !in v.free
  {
    PlaceStored(v, n, t, b, p, i);
  }

  /** An open inode and the device that it lives on. */
  class File {
    const b: nat
    const spb: nat
    const blockSize: nat
    var size: nat
    const device: Device
    var inode: Inode
    ghost var tree: Tree

    /** The blocks of the device and the free ones among them. */
    ghost function V(): (v: Volume)
      reads device
    {
      device.View()
    }

    ghost predicate Valid()
      reads this, device, device.alloc
    {
      device.Valid() && Rep(V(), inode, tree, b, spb)
    }

    /** A new inode owns nothing. */
    constructor (device: Device, b: nat, spb: nat, blockSize: nat)
      requires device.Valid() && VolumeOk(device.View(), b)
      ensures Valid() && this.device == device && tree.owner == map[] && size == 0
      ensures this.b == b && this.spb == spb && this.blockSize == blockSize
    {
      hide Rep, VolumeOk, Device.Valid;
      this.device, this.b, this.spb, this.blockSize, size := device, b, spb, blockSize, 0;
      inode, tree := Inode([0, 0, 0, 0, 0, 0, 0, 0, 0, 0, 0, 0], 0, 0, 0, 0), Tree(map[], map[]);
      OwnsNothing(device.View(), b, spb);
    }

    /** A block that is allocated and that this inode does not own, or none. */
    ghost predicate Fresh(x: nat)
      reads this, device
    {
      x != 0 ==> x in V().disk && x !in Blocks(V(), tree)
    }

    /** Blocks are only moved between the free ones and the owned ones. */
    twostate predicate Conserved(more: set<nat>)
      reads this, device
    {
      SameBlocks(old(V()), old(tree), V(), tree, more)
    }

    /** The count of the superblock and the blocks owned here. */
    ghost function Counted(): (n: nat)
      reads this, device, device.alloc
    {
      device.alloc.unallocated + |tree.owner|
    }

    lemma CountsBlocks()
      requires Valid()
      ensures Counted() == |Blocks(V(), tree)| && device.alloc.unallocated == |V().free|
    {
      device.CountsFree();
      BlocksCount(V(), tree);
    }

    /** The indirect root of a slot, allocated and zeroed if it is missing. */
    method EnsureRoot(slot: nat) returns (ok: bool)
      requires Valid() && 12 <= slot < 15
      modifies device`disk, device`free, device.alloc, this`inode, this`tree
      ensures Valid() && Grown(old(tree), tree) && Conserved({}) && OnlyPointers(old(device.disk), device.disk, tree)
      ensures ok ==> [slot] in tree.at && tree.at[[slot]] == Root(inode, slot)
      ensures !ok ==> V().free == {}
    {
      hide Rep, ValidPath, IsIndirect, Grown, WithChild, Child, SameBlocks, OnlyPointers, Device.Valid;
      ok := true;
      RootPlace(V(), inode, tree, slot, b, spb);
      SameBlocksReflexive(V(), tree);
      if Root(inode, slot) == 0 {
        var c := device.AllocateBlock();
        if c == 0 {
          return false;
        }
        device.WriteBlock(c, Zeros(b));
        inode := SetRoot(inode, slot, c);
        inode := inode.(sectcount := inode.sectcount + spb);
        tree := WithChild(tree, [], slot, c);
        AddIndirect(old(V()), old(inode), old(tree), b, spb, [], slot, c, V(), inode, tree);
      }
    }

    /** The indirect block at an entry of an indirect block, allocated and zeroed if it is missing. */
    method EnsureChild(parent: nat, i: nat, ghost p: Path) returns (ok: bool, ptr: nat)
      requires Valid() && p in tree.at && tree.at[p] == parent && i < b && IsIndirect(p + [i])
      modifies device`disk, device`free, device.alloc, this`inode, this`tree
      ensures Valid() && Grown(old(tree), tree) && Conserved({}) && OnlyPointers(old(device.disk), device.disk, tree)
      ensures ok ==> p + [i] in tree.at && tree.at[p + [i]] == ptr
      ensures !ok ==> V().free == {}
    {
      hide Rep, ValidPath, IsIndirect, Grown, WithChild, Child, SameBlocks, OnlyPointers, Device.Valid;
      EntryPlace(V(), inode, tree, b, spb, p, i);
      SameBlocksReflexive(V(), tree);
      ok, ptr := true, device.disk[parent][i];
      if ptr == 0 {
        ptr := device.AllocateBlock();
        if ptr == 0 {
          return false, 0;
        }
        var block: seq<nat> := device.disk[parent][i := ptr];
        device.WriteBlock(parent, block);
        inode := inode.(sectcount := inode.sectcount + spb);
        device.WriteBlock(ptr, Zeros(b));
        tree := WithChild(tree, p, i, ptr);
        AddIndirect(old(V()), old(inode), old(tree), b, spb, p, i, ptr, V(), inode, tree);
      }
    }

    /** getinodeblock reads its way down; a missing indirect block on the way is the caller's fault. */
    method GetInodeBlock(index: nat) returns (block: nat)
      requires Valid() && index < Capacity(b) && Reaches(tree, index, b)
      ensures block == BlockAt(tree, index, b)
    {
      hide TreeOk, Stored, ValidPath, IsData, VolumeOk, Capacity, Device.Valid;
      RepPositive(V(), inode, tree, b, spb);
      if index < 12 {
        ReadDirect(V(), inode, tree, b, index);
        return inode.direct[index];
      }
      var useDoubly, useTriply, x, y, z := SplitIndex(index, b);
      if !useDoubly {
        assert [12, z][..1] == [12];
        ReadSingly(V(), inode, tree, b, z);
        return device.disk[inode.singly][z];
      }
      if !useTriply {
        assert [13, y, z][..2] == [13, y];
        ReadDoubly(V(), inode, tree, b, y, z);
        var singlyPtr := device.disk[inode.doubly][y];
        return device.disk[singlyPtr][z];
      }
      assert [14, x, y, z][..3] == [14, x, y];
      ReadTriply(V(), inode, tree, b, x, y, z);
      var doublyPtr := device.disk[inode.triply][x];
      var singlyPtr := device.disk[doublyPtr][y];
      return device.disk[singlyPtr][z];
    }

    /** Writes a pointer and returns the one that was there. Block zero as parent stands for the
        inode itself. */
    method WritePointer(parent: nat, i: nat, x: nat, ghost p: Path) returns (was: nat)
      requires Valid() && IsPlace(tree, p, i, b) && IsData(p + [i])
      requires p != [] ==> parent == tree.at[p]
      requires p == [] ==> parent == 0
      modifies device`disk, this`inode
      ensures device.Valid() && old(InodeShaped(inode)) && (p == [] ==> i < 15)
      ensures inode == PutInode(old(inode), p, i, x)
      ensures p != [] ==> parent in old(V().disk) && i < |old(V().disk)[parent]|
      ensures V() == old(V()).(disk := PutDisk(old(V().disk), parent, p, i, x)) && was == Child(tree, p, i)
    {
      hide TreeOk, Stored, VolumeOk, ValidPath, IsIndirect, IsData, Sectors, WithChild, Child, Device.Valid;
      Place(V(), inode, tree, b, spb, p, i);
      if parent == 0 {
        was := inode.direct[i];
        inode := SetRoot(inode, i, x);
      } else {
        was := device.disk[parent][i];
        var block: seq<nat> := device.disk[parent][i := x];
        device.WriteBlock(parent, block);
      }
    }

    /** The end of setinodeblock: the pointer is replaced, and the old block is freed. */
    method Replace(parent: nat, i: nat, x: nat, ghost p: Path)
      requires Valid() && IsPlace(tree, p, i, b) && IsData(p + [i]) && Fresh(x)
      requires p != [] ==> parent == tree.at[p]
      requires p == [] ==> parent == 0
      modifies device`disk, device`free, device.alloc, this`inode, this`tree
      ensures Valid() && tree == WithChild(old(tree), p, i, x) && Conserved(if x == 0 then {} else {x})
      ensures OnlyPointers(old(device.disk), device.disk, tree)
    {
      hide Rep, ValidPath, IsIndirect, IsData, WithChild, Child, PutInode, PutDisk, NothingBelow, SameBlocks,
           OnlyPointers, Device.Valid;
      Place(V(), inode, tree, b, spb, p, i);
      var was := WritePointer(parent, i, x, p);
      if was != 0 {
        inode := inode.(sectcount := inode.sectcount - spb);
        device.FreeBlock(was);
      }
      if x != 0 {
        inode := inode.(sectcount := inode.sectcount + spb);
      }
      tree := WithChild(tree, p, i, x);
      PutKeeps(old(V()), old(inode), old(tree), b, spb, p, i, x, V(), inode, tree);
    }

    /** The doubly indirect block on the way to an index. Without the triply indirect tree it is
        the root of slot 13, which is allocated even where only slot 12 is used. */
    method DoublyPointer(useTriply: bool, triplyIndex: nat) returns (ok: bool, ptr: nat)
      requires Valid() && triplyIndex < b
      modifies device`disk, device`free, device.alloc, this`inode, this`tree
      ensures Valid() && Grown(old(tree), tree) && Conserved({}) && OnlyPointers(old(device.disk), device.disk, tree)
      ensures ok ==> Holds(tree, if useTriply then [14, triplyIndex] else [13], ptr)
      ensures !ok ==> V().free == {}
    {
      hide Rep, Grown, SameBlocks, OnlyPointers, IsIndirect, Device.Valid;
      ok := EnsureRoot(if useTriply then 14 else 13);
      ptr := inode.doubly;
      if ok && useTriply {
        ghost var v1, t1 := V(), tree;
        EntryPath([14], triplyIndex, [14, triplyIndex]);
        ok, ptr := EnsureChild(inode.triply, triplyIndex, [14]);
        PointersTransitive(old(device.disk), v1.disk, t1, device.disk, tree);
        GrownTransitive(old(tree), t1, tree);
        SameBlocksTransitive(old(V()), old(tree), v1, t1, V(), tree);
      }
    }

    /** The singly indirect block on the way to an index. */
    method SinglyPointer(useDoubly: bool, doublyPtr: nat, doublyIndex: nat, ghost p: Path) returns (ok: bool, ptr: nat)
      requires Valid() && doublyIndex < b && Holds(tree, p, doublyPtr) && IsIndirect(p + [doublyIndex])
      modifies device`disk, device`free, device.alloc, this`inode, this`tree
      ensures Valid() && Grown(old(tree), tree) && Conserved({}) && OnlyPointers(old(device.disk), device.disk, tree)
      ensures ok ==> Holds(tree, if useDoubly then p + [doublyIndex] else [12], ptr)
      ensures !ok ==> V().free == {}
    {
      hide Rep, Grown, SameBlocks, OnlyPointers, IsIndirect, Device.Valid;
      if useDoubly {
        ok, ptr := EnsureChild(doublyPtr, doublyIndex, p);
      } else {
        ok := EnsureRoot(12);
        ptr := inode.singly;
      }
    }

    /** The place of an index. Missing indirect blocks on the way are allocated. */
    method FindPlace(index: nat) returns (ok: bool, parent: nat, i: nat, ghost p: Path)
      requires Valid() && index < Capacity(b)
      modifies device`disk, device`free, device.alloc, this`inode, this`tree
      ensures Valid() && Grown(old(tree), tree) && Conserved({}) && OnlyPointers(old(device.disk), device.disk, tree)
      ensures ok ==> IsPlaceOf(tree, parent, p, i, index, b)
      ensures !ok ==> V().free == {}
    {
      hide Rep, Grown, IsPlaceOf, SameBlocks, OnlyPointers, IsIndirect, Capacity, PathOf, Device.Valid;
      RepPositive(V(), inode, tree, b, spb);
      if index < 12 {
        DirectPlace(tree, index, b);
        SameBlocksReflexive(V(), tree);
        return true, 0, index, [];
      }
      var useDoubly, useTriply, x, y, z := SplitIndex(index, b);
      var doublyPtr, singlyPtr;
      ok, doublyPtr := DoublyPointer(useTriply, x);
      if !ok {
        return false, 0, 0, [];
      }
      ghost var above := if useTriply then [14, x] else [13];
      ghost var v1, t1 := V(), tree;
      EntryPath(above, y, above + [y]);
      ok, singlyPtr := SinglyPointer(useDoubly, doublyPtr, y, above);
      PointersTransitive(old(device.disk), v1.disk, t1, device.disk, tree);
      GrownTransitive(old(tree), t1, tree);
      SameBlocksTransitive(old(V()), old(tree), v1, t1, V(), tree);
      p := if useDoubly then above + [y] else [12];
      parent, i := singlyPtr, z;
      if ok {
        IndirectPlace(tree, index, b, parent, p, i);
      }
    }

    /** setinodeblock. Where it fails, the file is as before and no block is left. */
    method SetInodeBlock(index: nat, x: nat) returns (ok: bool)
      requires Valid() && index < Capacity(b) && Fresh(x)
      modifies device`disk, device`free, device.alloc, this`inode, this`tree
      ensures Valid()
      ensures ok ==> BlockAt(tree, index, b) == x && Reaches(tree, index, b) && SameExcept(old(tree), tree, index, b)
      ensures ok ==> Conserved(if x == 0 then {} else {x})
      ensures !ok ==> SameFile(old(tree), tree, b) && Conserved({}) && V().free == {}
      ensures KeepsIndirect(old(tree), tree) && OnlyPointers(old(device.disk), device.disk, tree)
      ensures Counted() == old(Counted()) + (if ok && x != 0 then 1 else 0)
    {
      var parent, i;
      ghost var p;
      hide Rep, Grown, SameBlocks, OnlyPointers, KeepsIndirect, SameExcept, SameFile, Capacity, PathOf, IsPlace,
           IsData, WithChild, BlockAt, Reaches, Device.Valid;
      RepPositive(V(), inode, tree, b, spb);
      CountsBlocks();
      ok, parent, i, p := FindPlace(index);
      ghost var v1, t1 := V(), tree;
      GrownSameFile(old(tree), t1, b);
      if ok {
        StillFresh(old(V()), old(tree), v1, t1, x);
        Replace(parent, i, x, p);
        PlacedKeeps(t1, p, i, x);
        PointersTransitive(old(device.disk), v1.disk, t1, device.disk, tree);
        WriteIsUpdate(old(tree), t1, p, i, x, index, b, tree);
        SameBlocksExtends(old(V()), old(tree), v1, t1, V(), tree, x);
      }
      CountsBlocks();
      CountSame(old(V()), old(tree), V(), tree, if ok && x != 0 then {x} else {});
    }

    /** A round of the first loop of resizeinode: a new block at one index. Where it fails, the block
        taken may be lost. */
    method GrowOne(i: nat) returns (ok: bool, ghost lost: set<nat>)
      requires Valid() && i < Capacity(b)
      modifies device`disk, device`free, device.alloc, this`inode, this`tree
      ensures Valid() && KeepsIndirect(old(tree), tree) && OnlyPointers(old(device.disk), device.disk, tree)
      ensures ok ==> lost == {} && SameExcept(old(tree), tree, i, b) && BlockAt(tree, i, b) != 0
      ensures !ok ==> |lost| <= 1 && V().free == {} && SameFile(old(tree), tree, b)
      ensures SameBlocks(V(), tree, old(V()), old(tree), lost) && lost !! Blocks(V(), tree)
    {
      hide Rep, Grown, SameBlocks, OnlyPointers, KeepsIndirect, SameExcept, SameFile, Capacity, BlockAt, Reaches,
           Device.Valid;
      RepPositive(V(), inode, tree, b, spb);
      SameBlocksReflexive(V(), tree);
      NothingChanged(tree, b);
      var x := device.AllocateBlock();
      ok, lost := false, {};
      if x != 0 {
        Taken(old(V()), inode, tree, b, spb, x);
        ghost var v1 := V();
        ok := SetInodeBlock(i, x);
        if ok {
          ReservedReturns(old(V()), old(tree), x, v1, V(), tree);
        } else {
          lost := {x};
          ReservedLost(old(V()), old(tree), x, v1, V(), tree);
        }
      }
    }

    /** The first loop of resizeinode: a new block at every index from the old end to the new one.
        Where it fails, the last block taken may be lost. */
    method Grow(from: nat, end: nat) returns (ok: bool, ghost lost: set<nat>)
      requires Valid() && from <= end <= Capacity(b)
      modifies device`disk, device`free, device.alloc, this`inode, this`tree
      ensures Valid() && KeepsIndirect(old(tree), tree) && OnlyPointers(old(device.disk), device.disk, tree)
      ensures ok ==> lost == {} && Extended(old(tree), tree, from, end, b)
      ensures !ok ==>
                |lost| <= 1 && V().free == {} && exists k :: from <= k <= end && Extended(old(tree), tree, from, k, b)
      ensures SameBlocks(V(), tree, old(V()), old(tree), lost) && lost !! Blocks(V(), tree)
    {
      hide Rep, Grown, SameBlocks, Blocks, OnlyPointers, KeepsIndirect, SameExcept, SameFile, Capacity, Extended,
           BlockAt, Device.Valid;
      var i := from;
      RepPositive(V(), inode, tree, b, spb);
      SameBlocksReflexive(V(), tree);
      ExtendedStart(tree, from, b);
      ok, lost := true, {};
      while i < end && ok
        invariant Valid() && KeepsIndirect(old(tree), tree) && from <= i <= end
        invariant OnlyPointers(old(device.disk), device.disk, tree)
        invariant Extended(old(tree), tree, from, i, b)
        invariant ok ==> lost == {}
        invariant !ok ==> |lost| <= 1 && V().free == {}
        invariant SameBlocks(V(), tree, old(V()), old(tree), lost) && lost !! Blocks(V(), tree)
        decreases end - i, ok
      {
        ghost var v1, t1 := V(), tree;
        ok, lost := GrowOne(i);
        PointersTransitive(old(device.disk), v1.disk, t1, device.disk, tree);
        KeepsTransitive(old(tree), t1, tree);
        SameBlocksLose(old(V()), old(tree), v1, t1, V(), tree, lost);
        if ok {
          ExtendedStep(old(tree), t1, tree, from, i, b);
          i := i + 1;
        } else {
          ExtendedSame(old(tree), t1, tree, from, i, b);
        }
      }
    }

    /** The second loop of resizeinode: every index from the new end to the old one is cleared. */
    method Shrink(from: nat, end: nat) returns (ok: bool)
      requires Valid() && from <= end <= Capacity(b)
      modifies device`disk, device`free, device.alloc, this`inode, this`tree
      ensures Valid() && KeepsIndirect(old(tree), tree) && Conserved({})
      ensures OnlyPointers(old(device.disk), device.disk, tree)
      ensures ok ==> Cleared(old(tree), tree, from, end, b)
      ensures !ok ==> V().free == {} && exists k :: from <= k <= end && Cleared(old(tree), tree, from, k, b)
    {
      hide Rep, Grown, SameBlocks, Blocks, OnlyPointers, KeepsIndirect, SameExcept, SameFile, Capacity, Cleared,
           BlockAt, Device.Valid;
      var i := from;
      RepPositive(V(), inode, tree, b, spb);
      SameBlocksReflexive(V(), tree);
      ClearedStart(tree, from, b);
      ok := true;
      while i < end && ok
        invariant Valid() && KeepsIndirect(old(tree), tree) && from <= i <= end
        invariant OnlyPointers(old(device.disk), device.disk, tree)
        invariant Cleared(old(tree), tree, from, i, b)
        invariant !ok ==> V().free == {}
        invariant Conserved({})
        decreases end - i, ok
      {
        ghost var v1, t1 := V(), tree;
        ok := SetInodeBlock(i, 0);
        PointersTransitive(old(device.disk), v1.disk, t1, device.disk, tree);
        KeepsTransitive(old(tree), t1, tree);
        SameBlocksTransitive(old(V()), old(tree), v1, t1, V(), tree);
        if ok {
          ClearedStep(old(tree), t1, tree, from, i, b);
          i := i + 1;
        } else {
          ClearedSame(old(tree), t1, tree, from, i, b);
        }
      }
    }

    /** resizeinode. */
    method Resize(newSize: nat) returns (ok: bool, ghost lost: set<nat>)
      requires Valid() && 0 < blockSize && BlockCount(size, blockSize) <= Capacity(b)
      requires BlockCount(newSize, blockSize) <= Capacity(b)
      modifies device`disk, device`free, device.alloc, this`inode, this`tree, this`size
      ensures Valid() && KeepsIndirect(old(tree), tree) && OnlyPointers(old(device.disk), device.disk, tree)
      ensures ok ==> size == newSize && lost == {}
      ensures ok ==> Resized(old(tree), tree, BlockCount(old(size), blockSize), BlockCount(newSize, blockSize), b)
      ensures !ok ==> size == old(size) && |lost| <= 1 && V().free == {}
      ensures !ok ==> PartlyResized(old(tree), tree, BlockCount(size, blockSize), BlockCount(newSize, blockSize), b)
      ensures SameBlocks(V(), tree, old(V()), old(tree), lost) && lost !! Blocks(V(), tree)
      ensures Counted() + |lost| == old(Counted())
    {
      hide Rep, Grown, SameBlocks, Blocks, OnlyPointers, BlockAt, KeepsIndirect, Capacity, Extended, Cleared,
           BlockCount, Device.Valid;
      CountsBlocks();
      var newCount, count := BlockCount(newSize, blockSize), BlockCount(size, blockSize);
      RepPositive(V(), inode, tree, b, spb);
      SameBlocksReflexive(V(), tree);
      ExtendedStart(tree, count, b);
      ok, lost := true, {};
      if newCount > count {
        ok, lost := Grow(count, newCount);
      } else if newCount < count {
        ok := Shrink(newCount, count);
        SameBlocksSymmetric(old(V()), old(tree), V(), tree);
      }
      if ok {
        size := newSize;
      }
      CountsBlocks();
      CountSame(V(), tree, old(V()), old(tree), lost);
    }

    /** freeindirect: everything below a position is freed, then the block there. */
    method FreeIndirect(block: nat, depth: nat, ghost p: Path)
      requires device.Valid() && TreeOk(tree, b) && Stored(V(), inode, tree, b) && Holds(tree, p, block)
      requires p != [] && |p| + depth == Height(p[0]) && tree.owner.Keys <= V().disk.Keys
      requires Under(tree, p) !! V().free
      modifies device`free, device.alloc
      ensures device.Valid() && V() == old(V()).(free := old(V().free) + Under(tree, p))
      decreases depth
    {
      hide TreeOk, Stored, ValidPath, IsIndirect, IsData, Under, UnderUpTo, Child, Device.Valid;
      var i := 0;
      UnderNone(tree, p);
      while i < b
        invariant i <= b && device.Valid() && V() == old(V()).(free := old(V().free) + UnderUpTo(tree, p, i))
      {
        ghost var q := p + [i];
        NodeEntry(old(V()), inode, tree, b, p, i);
        UnderStep(tree, b, p, i);
        var child := device.disk[block][i];
        if child != 0 {
          StoredFrame(old(V()), inode, tree, b, V().free, inode.sectcount);
          UnderApart(tree, p, i);
          if depth > 0 {
            FreeIndirect(child, depth - 1, q);
          } else {
            UnderData(tree, b, q);
            device.FreeBlock(child);
          }
        }
        i := i + 1;
      }
      UnderAll(tree, b, p);
      device.FreeBlock(block);
    }

    /** The direct blocks of freeinode. */
    method FreeDirect()
      requires Valid()
      modifies device`free, device.alloc
      ensures device.Valid() && V() == old(V()).(free := old(V().free) + UnderUpTo(tree, [], 12))
      ensures Stored(V(), inode, tree, b)
    {
      hide TreeOk, Stored, ValidPath, IsIndirect, IsData, Under, UnderUpTo, Child, VolumeOk, Sectors, Device.Valid;
      UnderNone(tree, []);
      var i := 0;
      while i < 12
        invariant i <= 12 && device.Valid() && V() == old(V()).(free := old(V().free) + UnderUpTo(tree, [], i))
      {
        UnderStep(tree, b, [], i);
        DirectEntry(old(V()), inode, tree, b, i);
        if inode.direct[i] != 0 {
          UnderApart(tree, [], i);
          device.FreeBlock(inode.direct[i]);
        }
        i := i + 1;
      }
      StoredFrame(old(V()), inode, tree, b, V().free, inode.sectcount);
    }

    /** freeinode of a regular file or a directory: every owned block is freed, each exactly once. */
    method FreeInode()
      requires Valid()
      modifies device`free, device.alloc
      ensures device.Valid() && V() == old(V()).(free := old(V().free) + tree.owner.Keys)
      ensures old(V().free) !! tree.owner.Keys
      ensures device.alloc.unallocated == old(Counted())
    {
      hide TreeOk, Stored, UnderUpTo, Under, ValidPath, VolumeOk, Sectors, Device.Valid, Allocator.Valid;
      CountsBlocks();
      FreeDirect();
      FreeRoot(12, old(V().free));
      FreeRoot(13, old(V().free));
      FreeRoot(14, old(V().free));
      UnderWhole(tree, b);
      device.CountsFree();
      assert V().free == Blocks(old(V()), tree);
    }

    /** One indirect tree of freeinode. */
    method FreeRoot(slot: nat, ghost free: set<nat>)
      requires device.Valid() && 12 <= slot < 15 && TreeOk(tree, b) && Stored(V(), inode, tree, b)
      requires tree.owner.Keys <= V().disk.Keys && tree.owner.Keys !! free
      requires V().free == free + UnderUpTo(tree, [], slot)
      modifies device`free, device.alloc
      ensures device.Valid() && V() == old(V()).(free := free + UnderUpTo(tree, [], slot + 1))
      ensures Stored(V(), inode, tree, b)
    {
      hide TreeOk, Stored, ValidPath, IsIndirect, IsData, Under, UnderUpTo, Child, Device.Valid;
      UnderStep(tree, b, [], slot);
      UnderApart(tree, [], slot);
      RootTree(V(), inode, tree, b, slot);
      if Root(inode, slot) != 0 {
        FreeIndirect(Root(inode, slot), slot - 12, [slot]);
      }
      StoredFrame(old(V()), inode, tree, b, V().free, inode.sectcount);
    }
  }

  lemma DirectEntry(v: Volume, n: Inode, t: Tree, b: nat, i: nat)
    requires TreeOk(t, b) && Stored(v, n, t, b) && i < 12
    ensures InodeShaped(n) && (n.direct[i] != 0 <==> [] + [i] in t.at)
    ensures n.direct[i] != 0 ==> n.direct[i] in t.owner && Under(t, [] + [i]) == {n.direct[i]}
  {
    assert Root(n, i) == Child(t, [], i);
    if n.direct[i] != 0 { UnderData(t, b, [] + [i]); }
  }

  lemma RootTree(v: Volume, n: Inode, t: Tree, b: nat, slot: nat)
    requires 12 <= slot < 15 && TreeOk(t, b) && Stored(v, n, t, b)
    ensures InodeShaped(n) && [] + [slot] == [slot] && (Root(n, slot) != 0 <==> [slot] in t.at)
    ensures Root(n, slot) != 0 ==> Holds(t, [slot], Root(n, slot))
    ensures Under(t, [slot]) <= t.owner.Keys
  {
    assert Root(n, slot) == Child(t, [], slot) && [] + [slot] == [slot];
  }

  lemma UnderWhole(t: Tree, b: nat)
    requires TreeOk(t, b)
    ensures UnderUpTo(t, [], 15) == t.owner.Keys
  {
    forall x | x in t.owner
      ensures x in UnderUpTo(t, [], 15)
    {
      assert ValidPath(t.owner[x], b);
    }
  }

  function BlockCount(size: nat, blockSize: nat): (n: nat)
    requires 0 < blockSize
  {
    (size + blockSize - 1) / blockSize
  }

  ghost predicate PartlyResized(t: Tree, t': Tree, was: nat, now: nat, b: nat)
    requires 0 < b
  {
    if was <= now then exists k :: was <= k <= now && Extended(t, t', was, k, b)
    else exists k :: now <= k <= was && Cleared(t, t', now, k, b)
  }

  ghost predicate Resized(t: Tree, t': Tree, was: nat, now: nat, b: nat)
    requires 0 < b
  {
    if was <= now then Extended(t, t', was, now, b) else Cleared(t, t', now, was, b)
  }

  lemma CountSame(v: Volume, t: Tree, v': Volume, t': Tree, more: set<nat>)
    requires SameBlocks(v, t, v', t', more) && more !! Blocks(v, t)
    ensures |Blocks(v', t')| == |Blocks(v, t)| + |more|
  {}

  lemma OwnsNothing(v: Volume, b: nat, spb: nat)
    requires VolumeOk(v, b)
    ensures Rep(v, Inode([0, 0, 0, 0, 0, 0, 0, 0, 0, 0, 0, 0], 0, 0, 0, 0), Tree(map[], map[]), b, spb)
  {
    hide VolumeOk;
  }

  lemma SameBlocksSymmetric(v: Volume, t: Tree, v': Volume, t': Tree)
    requires SameBlocks(v, t, v', t', {})
    ensures SameBlocks(v', t', v, t, {})
  {}

  // ----- Freeing a whole tree

  /** The blocks at a position and below it. */
  ghost function Under(t: Tree, p: Path): (s: set<nat>) {
    set x | x in t.owner && p <= t.owner[x]
  }

  /** The blocks below the first n entries of a position. */
  ghost function UnderUpTo(t: Tree, p: Path, n: nat): (s: set<nat>) {
    set x | x in t.owner && p < t.owner[x] && t.owner[x][|p|] < n
  }

  lemma UnderNone(t: Tree, p: Path)
    ensures UnderUpTo(t, p, 0) == {}
  {}

  lemma UnderStep(t: Tree, b: nat, p: Path, i: nat)
    requires TreeOk(t, b)
    ensures UnderUpTo(t, p, i + 1) == UnderUpTo(t, p, i) + Under(t, p + [i])
    ensures p + [i] !in t.at ==> Under(t, p + [i]) == {}
  {
    forall x | x in t.owner
      ensures x in UnderUpTo(t, p, i + 1) <==> x in UnderUpTo(t, p, i) || x in Under(t, p + [i])
    {
      StepPath(p, i, t.owner[x]);
    }
    if x :| x in Under(t, p + [i]) {
      PrefixIn(t, b, t.owner[x], |p| + 1);
      assert t.owner[x][..|p| + 1] == p + [i];
    }
  }

  lemma {:induction false} PrefixIn(t: Tree, b: nat, q: Path, k: nat)
    requires TreeOk(t, b) && q in t.at && 1 <= k <= |q|
    ensures q[..k] in t.at
    decreases |q|
  {
    if k == |q| {
      assert q[..k] == q;
    } else {
      var up := q[..|q| - 1];
      PrefixIn(t, b, up, k);
      assert up[..k] == q[..k];
    }
  }

  /** The blocks below one entry are not below an earlier one, nor at the position itself. */
  lemma UnderApart(t: Tree, p: Path, i: nat)
    ensures Under(t, p + [i]) !! UnderUpTo(t, p, i) && Under(t, p + [i]) <= Under(t, p)
  {}

  lemma UnderData(t: Tree, b: nat, q: Path)
    requires TreeOk(t, b) && q in t.at && IsData(q)
    ensures Under(t, q) == {t.at[q]} && t.at[q] in t.owner
  {
    forall x | x in t.owner && q <= t.owner[x]
      ensures t.owner[x] == q
    {
      assert ValidPath(t.owner[x], b);
    }
  }

  lemma UnderAll(t: Tree, b: nat, p: Path)
    requires TreeOk(t, b) && p in t.at
    ensures UnderUpTo(t, p, b) + {t.at[p]} == Under(t, p) && t.at[p] !in UnderUpTo(t, p, b) && t.at[p] in t.owner
  {
    forall x | x in Under(t, p) && t.owner[x] != p
      ensures x in UnderUpTo(t, p, b)
    {
      assert ValidPath(t.owner[x], b);
    }
  }

  lemma NodeEntry(v: Volume, n: Inode, t: Tree, b: nat, p: Path, i: nat)
    requires TreeOk(t, b) && Stored(v, n, t, b) && p in t.at && p != [] && |p| <= Height(p[0]) && i < b
    ensures t.at[p] in v.disk && |v.disk[t.at[p]]| == b && v.disk[t.at[p]][i] == At(t, p + [i])
    ensures v.disk[t.at[p]][i] != 0 <==> p + [i] in t.at
    ensures (p + [i])[0] == p[0] && (|p| == Height(p[0]) <==> IsData(p + [i]))
  {
    assert IsIndirect(p) && NodeStored(v.disk, t, b, p);
  }

  /** A file with a block at every index of a range, and otherwise as before. */
  ghost predicate Extended(t: Tree, t': Tree, from: nat, end: nat, b: nat)
    requires 0 < b
  {
    forall j :: 0 <= j < Capacity(b) ==>
      if from <= j < end then BlockAt(t', j, b) != 0 else BlockAt(t', j, b) == BlockAt(t, j, b)
  }

  /** A file with no block at any index of a range, and otherwise as before. */
  ghost predicate Cleared(t: Tree, t': Tree, from: nat, end: nat, b: nat)
    requires 0 < b
  {
    forall j :: 0 <= j < Capacity(b) ==> BlockAt(t', j, b) == if from <= j < end then 0 else BlockAt(t, j, b)
  }

  lemma ExtendedStart(t: Tree, from: nat, b: nat)
    requires 0 < b
    ensures Extended(t, t, from, from, b) && KeepsIndirect(t, t)
  {}

  lemma ExtendedStep(t: Tree, t1: Tree, t2: Tree, from: nat, i: nat, b: nat)
    requires 0 < b && from <= i && Extended(t, t1, from, i, b) && SameExcept(t1, t2, i, b) && BlockAt(t2, i, b) != 0
    ensures Extended(t, t2, from, i + 1, b)
  {}

  lemma NothingChanged(t: Tree, b: nat)
    requires 0 < b
    ensures SameFile(t, t, b) && KeepsIndirect(t, t)
  {}

  lemma ExtendedSame(t: Tree, t1: Tree, t2: Tree, from: nat, i: nat, b: nat)
    requires 0 < b && Extended(t, t1, from, i, b) && SameFile(t1, t2, b)
    ensures Extended(t, t2, from, i, b)
  {}

  lemma ClearedStart(t: Tree, from: nat, b: nat)
    requires 0 < b
    ensures Cleared(t, t, from, from, b) && KeepsIndirect(t, t)
  {}

  lemma ClearedStep(t: Tree, t1: Tree, t2: Tree, from: nat, i: nat, b: nat)
    requires 0 < b && from <= i && Cleared(t, t1, from, i, b) && SameExcept(t1, t2, i, b) && BlockAt(t2, i, b) == 0
    ensures Cleared(t, t2, from, i + 1, b)
  {}

  lemma ClearedSame(t: Tree, t1: Tree, t2: Tree, from: nat, i: nat, b: nat)
    requires 0 < b && Cleared(t, t1, from, i, b) && SameFile(t1, t2, b)
    ensures Cleared(t, t2, from, i, b)
  {}

  lemma KeepsTransitive(t: Tree, t1: Tree, t2: Tree)
    requires KeepsIndirect(t, t1) && KeepsIndirect(t1, t2)
    ensures KeepsIndirect(t, t2)
  {}

  /** A block taken from the free ones belongs to nobody. */
  lemma Taken(v: Volume, n: Inode, t: Tree, b: nat, spb: nat, x: nat)
    requires Rep(v, n, t, b, spb) && x in v.free
    ensures Rep(v.(free := v.free - {x}), n, t, b, spb) && x != 0
    ensures x in v.disk && x !in Blocks(v.(free := v.free - {x}), t)
  {
    hide TreeOk, Stored, Sectors;
    StoredFrame(v, n, t, b, v.free - {x}, n.sectcount);
  }

  lemma ReservedReturns(v: Volume, t: Tree, x: nat, v1: Volume, v2: Volume, t2: Tree)
    requires x in v.free && v1 == v.(free := v.free - {x})
    requires SameBlocks(v1, t, v2, t2, if x == 0 then {} else {x}) && x != 0
    ensures SameBlocks(v2, t2, v, t, {})
  {
    assert v.free - {x} + t.owner.Keys + {x} == v.free + t.owner.Keys;
  }

  lemma ReservedLost(v: Volume, t: Tree, x: nat, v1: Volume, v2: Volume, t2: Tree)
    requires x in v.free && v1 == v.(free := v.free - {x})
    requires SameBlocks(v1, t, v2, t2, {}) && x !in Blocks(v1, t)
    ensures SameBlocks(v2, t2, v, t, {x}) && x !in Blocks(v2, t2)
  {
    assert v.free - {x} + t.owner.Keys + {x} == v.free + t.owner.Keys;
  }

  lemma SameBlocksLose(v: Volume, t: Tree, v1: Volume, t1: Tree, v2: Volume, t2: Tree, lost: set<nat>)
    requires SameBlocks(v1, t1, v, t, {}) && SameBlocks(v2, t2, v1, t1, lost)
    ensures SameBlocks(v2, t2, v, t, lost)
  {}

  /** A place, with the block that it is in, that belongs to an index. */
  ghost predicate IsPlaceOf(t: Tree, parent: nat, p: Path, i: nat, index: nat, b: nat)
    requires 0 < b
  {
    && p + [i] == PathOf(index, b) && IsPlace(t, p, i, b) && IsData(p + [i])
    && (if p == [] then parent == 0 else Holds(t, p, parent))
  }

  /** The indirect blocks on the way to an index are allocated. */
  ghost predicate Reaches(t: Tree, index: nat, b: nat)
    requires 0 < b
  {
    var p := PathOf(index, b);
    |p| == 1 || p[..|p| - 1] in t.at
  }

  ghost predicate KeepsIndirect(t: Tree, t': Tree) {
    forall p :: p in t.at && IsIndirect(p) ==> p in t'.at && t'.at[p] == t.at[p]
  }

  /** Where getinodeblock can be called, it still can after any of the operations. */
  lemma ReachesKept(t: Tree, t': Tree, index: nat, b: nat)
    requires 0 < b && index < Capacity(b) && Reaches(t, index, b) && KeepsIndirect(t, t')
    ensures Reaches(t', index, b)
  {
    SplitInverts(index, b);
    var p := PathOf(index, b);
    if |p| > 1 {
      assert p[..|p| - 1][0] == p[0];
    }
  }

  lemma DirectPlace(t: Tree, index: nat, b: nat)
    requires index < 12 && 0 < b
    ensures IsPlaceOf(t, 0, [], index, index, b)
  {
    assert [] + [index] == [index];
  }

  lemma IndirectPlace(t: Tree, index: nat, b: nat, parent: nat, p: Path, i: nat)
    requires 0 < b && index < Capacity(b) && p != [] && p + [i] == PathOf(index, b) && Holds(t, p, parent)
    ensures IsPlaceOf(t, parent, p, i, index, b)
  {
    SplitInverts(index, b);
  }

  /** The split of an index that needs an indirect block, as setinodeblock makes it. */
  method SplitIndex(index: nat, b: nat) returns (useDoubly: bool, useTriply: bool, x: nat, y: nat, z: nat)
    requires 12 <= index < Capacity(b) && 0 < b
    ensures x < b && y < b && z < b && (useTriply ==> useDoubly)
    ensures PathOf(index, b) == if !useDoubly then [12, z] else if !useTriply then [13, y, z] else [14, x, y, z]
  {
    SplitBounds(index - 12, b);
    var singly := (index - 12) / b;
    z := (index - 12) % b;
    useDoubly := singly > 0;
    if !useDoubly {
      return useDoubly, false, 0, 0, z;
    }
    var doubly := (singly - 1) / b;
    y := (singly - 1) % b;
    useTriply := doubly > 0;
    x := if useTriply then (doubly - 1) % b else 0;
  }

  lemma SameBlocksReflexive(v: Volume, t: Tree)
    ensures SameBlocks(v, t, v, t, {}) && OnlyPointers(v.disk, v.disk, t)
  {}

  ghost predicate Holds(t: Tree, p: Path, ptr: nat) {
    p in t.at && t.at[p] == ptr
  }

  lemma EntryPath(p: Path, i: nat, q: Path)
    requires q == p + [i] && p != [] && |p| < Height(p[0])
    ensures IsIndirect(p + [i])
  {}

  lemma SameBlocksTransitive(v: Volume, t: Tree, v1: Volume, t1: Tree, v2: Volume, t2: Tree)
    requires SameBlocks(v, t, v1, t1, {}) && SameBlocks(v1, t1, v2, t2, {})
    ensures SameBlocks(v, t, v2, t2, {})
  {}

  /** What is at the place of a data block: nothing is below it, and a block there is in use. */
  lemma Place(v: Volume, n: Inode, t: Tree, b: nat, spb: nat, p: Path, i: nat)
    requires Rep(v, n, t, b, spb) && IsPlace(t, p, i, b) && IsData(p + [i])
    ensures NothingBelow(t, p + [i]) && !IsIndirect(p + [i]) && InodeShaped(n)
    ensures p != [] ==>
              t.at[p] != 0 && t.at[p] in v.disk && i < |v.disk[t.at[p]]| && v.disk[t.at[p]][i] == Child(t, p, i)
    ensures p == [] ==> i < 12 && n.direct[i] == Child(t, p, i)
    ensures Child(t, p, i) != 0 ==> Child(t, p, i) in v.disk && Child(t, p, i) !in v.free
  {
    AbsentBelow(t, b, p + [i]);
    if p != [] {
      PlaceStored(v, n, t, b, p, i);
    } else {
      assert Root(n, i) == Child(t, p, i);
    }
  }

  /** The block at a position, or zero. */
  ghost function At(t: Tree, p: Path): (x: nat) {
    if p in t.at then t.at[p] else 0
  }

  lemma ReadDirect(v: Volume, n: Inode, t: Tree, b: nat, i: nat)
    requires Stored(v, n, t, b) && i < 12
    ensures i < |n.direct| && n.direct[i] == At(t, [i])
  {
    assert Root(n, i) == Child(t, [], i) && [] + [i] == [i];
  }

  lemma ReadSingly(v: Volume, n: Inode, t: Tree, b: nat, z: nat)
    requires TreeOk(t, b) && Stored(v, n, t, b) && z < b && [12] in t.at
    ensures n.singly in v.disk && |v.disk[n.singly]| == b && v.disk[n.singly][z] == At(t, [12, z])
  {
    hide TreeOk;
    RootEntry(v, n, t, b, 12);
    Entry(v, n, t, b, [12], z, [12, z]);
  }

  lemma ReadDoubly(v: Volume, n: Inode, t: Tree, b: nat, y: nat, z: nat)
    requires TreeOk(t, b) && Stored(v, n, t, b) && y < b && z < b && [13, y] in t.at
    ensures n.doubly in v.disk && |v.disk[n.doubly]| == b
    ensures var singly := v.disk[n.doubly][y];
            singly in v.disk && |v.disk[singly]| == b && v.disk[singly][z] == At(t, [13, y, z])
  {
    hide TreeOk;
    Above(t, b, [13], y, [13, y]);
    RootEntry(v, n, t, b, 13);
    Entry(v, n, t, b, [13], y, [13, y]);
    Entry(v, n, t, b, [13, y], z, [13, y, z]);
  }

  lemma ReadTriply(v: Volume, n: Inode, t: Tree, b: nat, x: nat, y: nat, z: nat)
    requires TreeOk(t, b) && Stored(v, n, t, b) && x < b && y < b && z < b && [14, x, y] in t.at
    ensures n.triply in v.disk && |v.disk[n.triply]| == b
    ensures var doubly := v.disk[n.triply][x]; doubly in v.disk && |v.disk[doubly]| == b
    ensures var singly := v.disk[v.disk[n.triply][x]][y];
            singly in v.disk && |v.disk[singly]| == b && v.disk[singly][z] == At(t, [14, x, y, z])
  {
    hide TreeOk;
    Above(t, b, [14, x], y, [14, x, y]);
    Above(t, b, [14], x, [14, x]);
    RootEntry(v, n, t, b, 14);
    Entry(v, n, t, b, [14], x, [14, x]);
    Entry(v, n, t, b, [14, x], y, [14, x, y]);
    Entry(v, n, t, b, [14, x, y], z, [14, x, y, z]);
  }

  lemma Above(t: Tree, b: nat, p: Path, i: nat, q: Path)
    requires TreeOk(t, b) && q == p + [i] && p != [] && q in t.at
    ensures p in t.at
  {
    assert q[..|q| - 1] == p;
  }

  lemma RootEntry(v: Volume, n: Inode, t: Tree, b: nat, slot: nat)
    requires Stored(v, n, t, b) && 12 <= slot < 15 && [slot] in t.at
    ensures Root(n, slot) == t.at[[slot]]
  {
    assert [] + [slot] == [slot];
  }

  /** An entry of an indirect block is the position below it. */
  lemma Entry(v: Volume, n: Inode, t: Tree, b: nat, p: Path, i: nat, q: Path)
    requires Stored(v, n, t, b) && q == p + [i] && p != [] && p in t.at && i < b && IsIndirect(p)
    ensures t.at[p] in v.disk && |v.disk[t.at[p]]| == b && v.disk[t.at[p]][i] == At(t, q)
  {
    assert NodeStored(v.disk, t, b, p);
  }
}
