/**
 An ext2 file system (kernel-src/fs/ext2.c) with any number of inodes on one device. The blocks of
 different inodes are disjoint, every one of them is marked used in the bitmaps, and an operation on
 one inode leaves the others as they are.
 */
module Ext2FileSystem {
  import opened Common
  import opened Ext2Alloc
  import opened Ext2Tree
  import opened Ext2Blocks
  import opened Ext2Device
  import opened Ext2Inode

  /** Every inode has its blocks, and no block belongs to two of them. */
  ghost predicate AllOk(v: Volume, ns: map<nat, Inode>, ts: map<nat, Tree>, b: nat, spb: nat) {
    && ns.Keys == ts.Keys && VolumeOk(v, b)
    && (forall i :: i in ns ==> Rep(v, ns[i], ts[i], b, spb))
    && (forall i, j :: i in ts && j in ts && i != j ==> Disjoint(ts, i, j))
  }

  ghost predicate Disjoint(ts: map<nat, Tree>, i: nat, j: nat)
    requires i in ts && j in ts
  {
    ts[i].owner.Keys !! ts[j].owner.Keys
  }

  /** Blocks that no inode owns. */
  ghost predicate Unowned(ts: map<nat, Tree>, more: set<nat>) {
    forall i :: i in ts ==> more !! ts[i].owner.Keys
  }

  /** A change that stays within the blocks that are free, owned by t, or in more. */
  ghost predicate Confined(v: Volume, t: Tree, v': Volume, t': Tree, more: set<nat>) {
    && Blocks(v', t') <= Blocks(v, t) + more && v'.disk.Keys == v.disk.Keys
    && forall x :: x in v.disk && x !in Blocks(v, t) + more ==> v'.disk[x] == v.disk[x]
  }

  /** Blocks that are neither free nor owned by t, nor in more, stay so. */
  lemma StayApart(v: Volume, t: Tree, v': Volume, t': Tree, more: set<nat>, u: Tree)
    requires Confined(v, t, v', t', more) && Owned(v, u) && u.owner.Keys !! t.owner.Keys && more !! u.owner.Keys
    ensures Owned(v', u) && u.owner.Keys !! t'.owner.Keys
    ensures forall x :: x in u.owner ==> x in v.disk && v'.disk[x] == v.disk[x]
  {
    forall x | x in u.owner
      ensures x in v.disk && x !in Blocks(v, t) + more && x !in Blocks(v', t')
    {
      assert x !in v.free && x !in t.owner;
    }
    assert u.owner.Keys !! Blocks(v', t');
  }

  lemma StoredKept(v: Volume, v': Volume, n: Inode, u: Tree, b: nat)
    requires TreeOk(u, b) && Stored(v, n, u, b)
    requires forall x :: x in u.owner ==> x in v'.disk && x in v.disk && v'.disk[x] == v.disk[x]
    ensures Stored(v', n, u, b)
  {
    hide TreeOk, ValidPath, IsIndirect;
    OwnersHeld(u, b);
    forall p | p in u.at && IsIndirect(p)
      ensures NodeStored(v'.disk, u, b, p)
    {
      assert NodeStored(v.disk, u, b, p);
    }
  }

  /** Another inode does not notice. */
  lemma OtherKept(v: Volume, t: Tree, v': Volume, t': Tree, more: set<nat>, n: Inode, u: Tree, b: nat, spb: nat)
    requires Confined(v, t, v', t', more) && VolumeOk(v', b) && Rep(v, n, u, b, spb)
    requires u.owner.Keys !! t.owner.Keys && more !! u.owner.Keys
    ensures Rep(v', n, u, b, spb) && u.owner.Keys !! t'.owner.Keys
  {
    hide Sectors, TreeOk, Stored, Owned, VolumeOk, Confined;
    StayApart(v, t, v', t', more, u);
    SameDisk(v, t, v', t', more);
    StoredKept(v, v', n, u, b);
  }

  lemma SameDisk(v: Volume, t: Tree, v': Volume, t': Tree, more: set<nat>)
    requires Confined(v, t, v', t', more)
    ensures v'.disk.Keys == v.disk.Keys
  {}

  lemma OwnersHeld(u: Tree, b: nat)
    requires TreeOk(u, b)
    ensures forall p :: p in u.at ==> u.at[p] in u.owner
  {}

  /** One inode changes within its own and the free blocks: the whole file system stays in order. */
  lemma OneChanges(v: Volume, ns: map<nat, Inode>, ts: map<nat, Tree>, b: nat, spb: nat, k: nat, v': Volume, n': Inode,
                   t': Tree, more: set<nat>)
    requires AllOk(v, ns, ts, b, spb) && k in ns && Confined(v, ts[k], v', t', more) && Unowned(ts, more)
    requires Rep(v', n', t', b, spb)
    ensures AllOk(v', ns[k := n'], ts[k := t'], b, spb)
  {
    hide Confined, TreeOk, Stored, Owned, Sectors;
    forall i | i in ns && i != k
      ensures Rep(v', ns[i], ts[i], b, spb) && ts[i].owner.Keys !! t'.owner.Keys
    {
      assert Disjoint(ts, i, k);
      OtherKept(v, ts[k], v', t', more, ns[i], ts[i], b, spb);
    }
    var ts' := ts[k := t'];
    forall i, j | i in ts' && j in ts' && i != j
      ensures Disjoint(ts', i, j)
    {
      assert i != k && j != k ==> Disjoint(ts, i, j);
    }
  }

  /** A new inode owns nothing. */
  lemma OneAdded(v: Volume, ns: map<nat, Inode>, ts: map<nat, Tree>, b: nat, spb: nat, k: nat, n: Inode, t: Tree)
    requires AllOk(v, ns, ts, b, spb) && Rep(v, n, t, b, spb) && t.owner == map[] && k !in ns
    ensures AllOk(v, ns[k := n], ts[k := t], b, spb)
  {
    hide Rep, VolumeOk;
    var ts' := ts[k := t];
    forall i, j | i in ts' && j in ts' && i != j
      ensures Disjoint(ts', i, j)
    {
      assert i != k && j != k ==> Disjoint(ts, i, j);
    }
  }

  /** The blocks of an inode that goes away become free. */
  lemma OneRemoved(v: Volume, ns: map<nat, Inode>, ts: map<nat, Tree>, b: nat, spb: nat, k: nat, v': Volume)
    requires AllOk(v, ns, ts, b, spb) && k in ns && v' == v.(free := v.free + ts[k].owner.Keys)
    ensures AllOk(v', ns - {k}, ts - {k}, b, spb)
  {
    hide TreeOk, Stored, Owned, Sectors;
    assert VolumeOk(v', b) by {
      assert Owned(v, ts[k]);
      OwnedOnDisk(v, ts[k]);
    }
    forall i | i in ns && i != k
      ensures Rep(v', ns[i], ts[i], b, spb)
    {
      assert Disjoint(ts, i, k);
      OwnedStill(v, ts[i], ts[k].owner.Keys);
      StoredFrame(v, ns[i], ts[i], b, v'.free, ns[i].sectcount);
    }
    var ts' := ts - {k};
    forall i, j | i in ts' && j in ts' && i != j
      ensures Disjoint(ts', i, j)
    {
      assert Disjoint(ts, i, j);
    }
  }

  lemma OwnedOnDisk(v: Volume, t: Tree)
    requires Owned(v, t)
    ensures t.owner.Keys <= v.disk.Keys
  {}

  lemma OwnedStill(v: Volume, u: Tree, freed: set<nat>)
    requires Owned(v, u) && u.owner.Keys !! freed
    ensures Owned(v.(free := v.free + freed), u)
  {}

  lemma SameIsConfined(v: Volume, t: Tree, v': Volume, t': Tree, more: set<nat>)
    requires SameBlocks(v, t, v', t', more) || SameBlocks(v', t', v, t, more)
    ensures Confined(v, t, v', t', more)
  {}

  /** Each number has an inode of its own. */
  ghost predicate Separate(files: map<nat, File>) {
    forall i, j :: i in files && j in files && i != j ==> files[i] != files[j]
  }

  lemma SeparateFrom(files: map<nat, File>, id: nat)
    requires Separate(files) && id in files
    ensures forall i :: i in files && i != id ==> files[i] != files[id]
  {}

  lemma SeparateAdded(files: map<nat, File>, id: nat, f: File)
    requires Separate(files) && forall i :: i in files ==> files[i] != f
    ensures Separate(files[id := f])
  {}

  lemma SeparateRemoved(files: map<nat, File>, id: nat)
    requires Separate(files)
    ensures Separate(files - {id})
  {}

  class FileSystem {
    const device: Device
    const inodes: Allocator
    const b: nat
    const spb: nat
    const blockSize: nat
    var files: map<nat, File>

    ghost predicate Valid()
      reads this, device, device.alloc, inodes, files.Values
    {
      && device.Valid() && inodes.Valid() && inodes != device.alloc
      && AllKnown()
      && Separate(files) && AllOk(device.View(), Inodes(), Trees(), b, spb)
    }

    /** The number of an inode is in use, and the inode lives on this device. */
    ghost predicate Known(i: nat)
      requires i in files && inodes.Valid()
      reads this, inodes
    {
      && files[i].device == device && files[i].b == b && files[i].spb == spb && files[i].blockSize == blockSize
      && Usable(i)
    }

    ghost predicate AllKnown()
      requires inodes.Valid()
      reads this, inodes
    {
      forall i :: i in files ==> Known(i)
    }

    ghost predicate Usable(i: nat)
      requires inodes.Valid()
      reads inodes
    {
      i != 0 && InRange(inodes.layout, |inodes.bitmaps|, i) && !IsFree(inodes.layout, inodes.bitmaps, i)
    }

    ghost function Inodes(): (ns: map<nat, Inode>)
      reads this, files.Values
    {
      map i | i in files :: files[i].inode
    }

    ghost function Trees(): (ts: map<nat, Tree>)
      reads this, files.Values
    {
      map i | i in files :: files[i].tree
    }

    ghost function Sizes(): (ns: map<nat, nat>)
      reads this, files.Values
    {
      map i | i in files :: files[i].size
    }

    /** A file system without inodes. */
    constructor (device: Device, inodes: Allocator, b: nat, spb: nat, blockSize: nat)
      requires device.Valid() && inodes.Valid() && inodes != device.alloc && VolumeOk(device.View(), b)
      ensures Valid() && this.device == device && this.inodes == inodes && files == map[]
    {
      this.device, this.inodes, this.b, this.spb, this.blockSize := device, inodes, b, spb, blockSize;
      files := map[];
    }

    twostate lemma OneInode(id: nat)
      requires files == old(files) && id in files
      requires forall i :: i in files && i != id ==> files[i].inode == old(files[i].inode)
      ensures Inodes() == old(Inodes())[id := files[id].inode]
    {}

    twostate lemma OneTree(id: nat)
      requires files == old(files) && id in files
      requires forall i :: i in files && i != id ==> files[i].tree == old(files[i].tree)
      ensures Trees() == old(Trees())[id := files[id].tree]
    {}

    twostate lemma OneSize(id: nat)
      requires files == old(files) && id in files
      requires forall i :: i in files && i != id ==> files[i].size == old(files[i].size)
      ensures Sizes() == old(Sizes())[id := files[id].size]
    {}

    twostate lemma AddedSizes(id: nat)
      requires id in files && files.Keys == old(files).Keys + {id}
      requires forall i :: i in old(files) && i != id ==>
                 files[i] == old(files)[i] && files[i].size == old(files[i].size)
      ensures Sizes() == old(Sizes())[id := files[id].size]
    {}

    twostate lemma RemovedSizes(id: nat)
      requires files == old(files) - {id} && forall i :: i in files ==> files[i].size == old(files[i].size)
      ensures Sizes() == old(Sizes()) - {id}
    {}

    twostate lemma AddedViews(id: nat)
      requires id in files && files.Keys == old(files).Keys + {id}
      requires forall i :: i in old(files) && i != id ==>
                 && files[i] == old(files)[i] && files[i].inode == old(files[i].inode)
                 && files[i].tree == old(files[i].tree)
      ensures Inodes() == old(Inodes())[id := files[id].inode] && Trees() == old(Trees())[id := files[id].tree]
    {}

    twostate lemma RemovedViews(id: nat)
      requires files == old(files) - {id}
      requires forall i :: i in files ==> files[i].inode == old(files[i].inode) && files[i].tree == old(files[i].tree)
      ensures Inodes() == old(Inodes()) - {id} && Trees() == old(Trees()) - {id}
    {}

    twostate lemma KnownAdded(id: nat)
      requires inodes.Valid() && Usable(id) && id in files && files == old(files)[id := files[id]]
      requires files[id].device == device && files[id].b == b && files[id].spb == spb
      requires files[id].blockSize == blockSize && forall i :: i in old(files) ==> Usable(i)
      requires old(inodes.Valid() && AllKnown())
      ensures AllKnown()
    {
      forall i | i in files
        ensures Known(i)
      {
        assert i != id ==> old(Known(i));
      }
    }

    twostate lemma KnownRemoved(id: nat)
      requires inodes.Valid() && files == old(files) - {id} && old(inodes.Valid() && AllKnown())
      requires forall i :: i in files ==> Usable(i)
      ensures AllKnown()
    {
      forall i | i in files
        ensures Known(i)
      {
        assert old(Known(i));
      }
    }

    lemma IsKnown(id: nat)
      requires inodes.Valid() && AllKnown() && id in files
      ensures Known(id)
    {}

    lemma AllUsable()
      requires inodes.Valid() && AllKnown()
      ensures forall i :: i in files ==> Usable(i)
    {
      assert forall i :: i in files ==> Known(i);
    }

    /** The number of a new inode is the least that is free, and it is used from now on. */
    method AllocateNumber() returns (id: nat)
      requires Valid()
      modifies inodes
      ensures Valid() && Numbered(old(inodes.bitmaps), id)
      ensures id == 0 ==> inodes.unallocated == old(inodes.unallocated)
      ensures id != 0 ==> id !in files && Usable(id) && inodes.unallocated == old(inodes.unallocated) - 1
    {
      hide AllOk, IsFree, Device.Valid;
      var r := inodes.Allocate();
      id := 0;
      if r.Some? {
        id := r.value;
        FreeInRange(inodes.layout, old(inodes.bitmaps), id);
      }
      forall i | i in files
        ensures Known(i) && i != id
      {
        assert old(Known(i));
      }
    }

    /** From bitmaps on, the least free number has become used, and no other number has changed; zero
        stands for none where none was free. */
    ghost predicate Numbered(bitmaps: seq<bitmap>, id: nat)
      requires inodes.Valid()
      reads inodes
    {
      && Shaped(inodes.layout, bitmaps) && (id == 0 ==> inodes.bitmaps == bitmaps)
      && (id != 0 ==> IsFree(inodes.layout, bitmaps, id))
      && forall i: nat ::
           && (IsFree(inodes.layout, bitmaps, i) ==> 0 < id <= i)
           && (IsFree(inodes.layout, inodes.bitmaps, i) <==> IsFree(inodes.layout, bitmaps, i) && i != id)
    }

    /** An inode is allocated, empty. */
    method Create() returns (id: nat)
      requires Valid()
      modifies this`files, inodes
      ensures Valid() && Numbered(old(inodes.bitmaps), id)
      ensures id == 0 ==> files == old(files) && inodes.unallocated == old(inodes.unallocated)
      ensures id != 0 ==> id !in old(files) && inodes.unallocated == old(inodes.unallocated) - 1
      ensures id != 0 ==> files.Keys == old(files).Keys + {id} && fresh(files[id]) && files[id].size == 0
      ensures id != 0 ==> files[id].b == b && files[id].blockSize == blockSize
      ensures id != 0 ==> files[id].tree.owner == map[] && forall i :: i in old(files) ==> files[i] == old(files)[i]
    {
      hide AllOk, VolumeOk, Usable, Numbered, AllKnown, Rep, Separate, Device.Valid, Allocator.Valid;
      id := AllocateNumber();
      if id == 0 {
        return;
      }
      label Numbered:
      AllVolumeOk(device.View(), Inodes(), Trees(), b, spb);
      var f := new File(device, b, spb, blockSize);
      OneAdded(device.View(), Inodes(), Trees(), b, spb, id, f.inode, f.tree);
      SeparateAdded(files, id, f);
      AllUsable();
      files := files[id := f];
      KnownAdded@Numbered(id);
      AddedViews@Numbered(id);
    }

    /** setinodeblock on one of several inodes. */
    method SetInodeBlock(id: nat, index: nat, x: nat) returns (ok: bool)
      requires Valid() && id in files && index < Capacity(b)
      requires x != 0 ==> x in device.disk && x !in device.free && Unowned(Trees(), {x})
      modifies device`disk, device`free, device.alloc, files[id]
      ensures Valid() && files[id].Counted() == old(files[id].Counted()) + (if ok && x != 0 then 1 else 0)
      ensures ok ==> BlockAt(files[id].tree, index, b) == x && SameExcept(old(files[id].tree), files[id].tree, index, b)
      ensures !ok ==> SameFile(old(files[id].tree), files[id].tree, b) && device.free == {}
    {
      hide AllOk, Rep, SameBlocks, Confined, AllKnown, Separate, Device.Valid, Allocator.Valid, SameExcept, SameFile,
           Capacity, KeepsIndirect, OnlyPointers;
      IsKnown(id);
      SeparateFrom(files, id);
      var f := files[id];
      ghost var v, ns, ts := device.View(), Inodes(), Trees();
      InodeOk(v, ns, ts, b, spb, id);
      NotOwned(ts, id, x);
      NoneUnowned(ts);
      ok := f.SetInodeBlock(index, x);
      ghost var more := if ok && x != 0 then {x} else {};
      SameIsConfined(v, ts[id], device.View(), f.tree, more);
      OneChanges(v, ns, ts, b, spb, id, device.View(), f.inode, f.tree, more);
      OneInode(id);
      OneTree(id);
      assert AllOk(device.View(), Inodes(), Trees(), b, spb) && AllKnown();
    }

    /** resizeinode on one of several inodes. */
    method Resize(id: nat, newSize: nat) returns (ok: bool, ghost lost: set<nat>)
      requires Valid() && id in files && 0 < blockSize && BlockCount(files[id].size, blockSize) <= Capacity(b)
      requires BlockCount(newSize, blockSize) <= Capacity(b)
      modifies device`disk, device`free, device.alloc, files[id]
      ensures Valid() && files[id].Counted() + |lost| == old(files[id].Counted())
      ensures ok ==> lost == {} && files[id].size == newSize
      ensures ok ==> 0 < b && Resized(old(files[id].tree), files[id].tree, BlockCount(old(files[id].size), blockSize),
                                      BlockCount(newSize, blockSize), b)
      ensures !ok ==> |lost| <= 1 && device.free == {} && files[id].size == old(files[id].size)
    {
      hide AllOk, Rep, SameBlocks, Blocks, Unowned, Confined, AllKnown, Separate, Device.Valid, Allocator.Valid,
           Resized, Capacity, KeepsIndirect, BlockCount, OnlyPointers;
      IsKnown(id);
      SeparateFrom(files, id);
      var f := files[id];
      ghost var v, ns, ts := device.View(), Inodes(), Trees();
      InodeOk(v, ns, ts, b, spb, id);
      NoneUnowned(ts);
      ok, lost := f.Resize(newSize);
      OnlyLost(v, ts[id], device.View(), f.tree, lost);
      OneChanges(v, ns, ts, b, spb, id, device.View(), f.inode, f.tree, {});
      OneInode(id);
      OneTree(id);
      assert AllOk(device.View(), Inodes(), Trees(), b, spb) && AllKnown();
    }

    /** The blocks of one inode become free, and it is gone; its number is still in use. */
    method FreeBlocks(id: nat)
      requires Valid() && id in files
      modifies this`files, device`free, device.alloc
      ensures Valid() && files == old(files) - {id} && Usable(id)
      ensures device.free == old(device.free) + old(files)[id].tree.owner.Keys
      ensures device.alloc.unallocated == old(device.alloc.unallocated) + |old(files)[id].tree.owner|
    {
      hide AllOk, Rep, Usable, AllKnown, Separate, Device.Valid, Allocator.Valid;
      ghost var v, ns, ts := device.View(), Inodes(), Trees();
      InodeOk(v, ns, ts, b, spb, id);
      IsKnown(id);
      AllUsable();
      files[id].FreeInode();
      SeparateRemoved(files, id);
      files := files - {id};
      KnownRemoved(id);
      OneRemoved(v, ns, ts, b, spb, id, device.View());
      RemovedViews(id);
    }

    /** freeinode: the blocks and the number of one inode become free, and it is gone. */
    method FreeInode(id: nat)
      requires Valid() && id in files
      modifies this`files, device`free, device.alloc, inodes
      ensures Valid() && files == old(files) - {id}
      ensures device.free == old(device.free) + old(files)[id].tree.owner.Keys
      ensures device.alloc.unallocated == old(device.alloc.unallocated) + |old(files)[id].tree.owner|
      ensures inodes.unallocated == old(inodes.unallocated) + 1 && IsFree(inodes.layout, inodes.bitmaps, id)
    {
      hide AllOk, IsFree, Separate, Device.Valid, Allocator.Valid;
      FreeBlocks(id);
      label Freed:
      inodes.Release(id);
      forall i | i in files
        ensures Known(i)
      {
        assert old@Freed(Known(i));
      }
    }
  }

  lemma FreeInRange(l: Layout, bitmaps: seq<bitmap>, id: nat)
    requires Shaped(l, bitmaps) && IsFree(l, bitmaps, id)
    ensures InRange(l, |bitmaps|, id)
  {}

  lemma AllVolumeOk(v: Volume, ns: map<nat, Inode>, ts: map<nat, Tree>, b: nat, spb: nat)
    requires AllOk(v, ns, ts, b, spb)
    ensures VolumeOk(v, b)
  {}

  lemma InodeOk(v: Volume, ns: map<nat, Inode>, ts: map<nat, Tree>, b: nat, spb: nat, k: nat)
    requires AllOk(v, ns, ts, b, spb) && k in ns
    ensures k in ts && Rep(v, ns[k], ts[k], b, spb) && 0 < b
  {}

  lemma NotOwned(ts: map<nat, Tree>, k: nat, x: nat)
    requires k in ts
    ensures Unowned(ts, {x}) ==> x !in ts[k].owner
  {}

  lemma NoneUnowned(ts: map<nat, Tree>)
    ensures Unowned(ts, {})
  {}

  lemma OnlyLost(v: Volume, t: Tree, v': Volume, t': Tree, lost: set<nat>)
    requires SameBlocks(v', t', v, t, lost)
    ensures Confined(v, t, v', t', {})
  {}
}
