/**
 The block device under an ext2 file system (kernel-src/fs/ext2.c): the blocks, as arrays of
 pointers, and the block allocator with its bitmaps. A block is free exactly if its bit is clear.
 */
module Ext2Device {
  import opened Common
  import opened Ext2Alloc
  import opened Ext2Tree

  class Device {
    const alloc: Allocator
    var disk: map<nat, seq<nat>>
    ghost var free: set<nat>

    ghost predicate Valid()
      reads this, alloc
    {
      && alloc.Valid() && free == FreeIds(alloc.layout, alloc.bitmaps)
      && forall x :: x in disk ==> x != 0 && InRange(alloc.layout, |alloc.bitmaps|, x)
    }

    ghost function View(): (v: Volume)
      reads this
    {
      Volume(disk, free)
    }

    constructor (alloc: Allocator, disk: map<nat, seq<nat>>)
      requires alloc.Valid() && forall x :: x in disk ==> x != 0 && InRange(alloc.layout, |alloc.bitmaps|, x)
      ensures Valid() && this.alloc == alloc && this.disk == disk
    {
      this.alloc, this.disk := alloc, disk;
      free := FreeIds(alloc.layout, alloc.bitmaps);
    }

    /** The superblock counts the free blocks. */
    lemma CountsFree()
      requires Valid()
      ensures alloc.unallocated == |free|
    {
      alloc.CountIsFree();
    }

    /** The least free block becomes used; zero means that none is free. */
    method AllocateBlock() returns (x: nat)
      requires Valid()
      modifies this`free, alloc
      ensures Valid()
      ensures x == 0 ==> free == old(free) == {} && alloc.unallocated == old(alloc.unallocated)
      ensures x != 0 ==> x in old(free) && (forall y :: y in old(free) ==> x <= y) && free == old(free) - {x}
      ensures x != 0 ==> alloc.unallocated == old(alloc.unallocated) - 1
    {
      hide FreeIds, IsFree;
      FreeIdsIs(alloc.layout, alloc.bitmaps);
      CountsFree();
      var r := alloc.Allocate();
      FreeIdsIs(alloc.layout, alloc.bitmaps);
      free := FreeIds(alloc.layout, alloc.bitmaps);
      CountsFree();
      x := if r.Some? then r.value else 0;
    }

    method WriteBlock(x: nat, block: seq<nat>)
      requires Valid() && x in disk
      modifies this`disk
      ensures Valid() && disk == old(disk)[x := block]
    {
      disk := disk[x := block];
    }

    /** A used block becomes free. */
    method FreeBlock(x: nat)
      requires Valid() && x in disk && x !in free
      modifies this`free, alloc
      ensures Valid() && free == old(free) + {x} && alloc.unallocated == old(alloc.unallocated) + 1
    {
      hide FreeIds;
      FreeIdsIs(alloc.layout, alloc.bitmaps);
      alloc.Release(x);
      FreeIdsIs(alloc.layout, alloc.bitmaps);
      free := FreeIds(alloc.layout, alloc.bitmaps);
    }
  }
}
