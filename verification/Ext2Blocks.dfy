/**
 What one pointer write does to the block tree of an inode (kernel-src/fs/ext2.c): the owner map,
 the stored pointers, the used marks and the sector count change together.
 */
module Ext2Blocks {
  import opened Arith
  import opened Ext2Tree

  // ----- One pointer at a time

  /** A place for a pointer: a slot of the inode, or an entry of an owned indirect block. */
  ghost predicate IsPlace(t: Tree, p: Path, i: nat, b: nat) {
    && ValidPath(p + [i], b)
    && (p != [] ==> p in t.at)
  }

  ghost function WithChild(t: Tree, p: Path, i: nat, x: nat): (t': Tree) {
    var q, was := p + [i], Child(t, p, i);
    if x == 0 then Tree(t.at - {q}, t.owner - {was})
    else Tree(t.at[q := x], (t.owner - {was})[x := q])
  }

  /** Writing pointer x at a place: into the inode or into the indirect block. */
  function PutInode(n: Inode, p: Path, i: nat, x: nat): (n': Inode)
    requires InodeShaped(n) && (p == [] ==> i < 15)
    ensures InodeShaped(n') && n'.sectcount == n.sectcount
  {
    if p == [] then SetRoot(n, i, x) else n
  }

  function PutDisk(disk: map<nat, seq<nat>>, parent: nat, p: Path, i: nat, x: nat): (disk': map<nat, seq<nat>>)
    requires p != [] ==> parent in disk && i < |disk[parent]|
    ensures disk'.Keys == disk.Keys
  {
    if p == [] then disk else
    var block: seq<nat> := disk[parent][i := x];
    disk[parent := block]
  }

  /** The indirect block that position p stands for; the inode itself is not one. */
  ghost function Parent(t: Tree, p: Path): (x: nat)
    requires p != [] ==> p in t.at
  {
    if p == [] then 0 else t.at[p]
  }

  /** No position below p. */
  ghost predicate NothingBelow(t: Tree, p: Path) {
    forall i :: p + [i] !in t.at
  }

  lemma PlaceIsIndirect(t: Tree, p: Path, i: nat, b: nat)
    requires IsPlace(t, p, i, b) && p != []
    ensures IsIndirect(p) && i < b
  {
    assert (p + [i])[|p|] == i;
    assert (p + [i])[0] == p[0];
  }

  lemma AbsentBelow(t: Tree, b: nat, p: Path)
    requires TreeOk(t, b) && p != [] && (p !in t.at || IsData(p))
    ensures NothingBelow(t, p)
  {
    forall i
      ensures p + [i] !in t.at
    {
      var q := p + [i];
      assert q[0] == p[0] && q[..|q| - 1] == p;
    }
  }

  lemma TreeAfter(t: Tree, b: nat, p: Path, i: nat, x: nat)
    requires TreeOk(t, b) && IsPlace(t, p, i, b) && NothingBelow(t, p + [i]) && x !in t.owner
    ensures TreeOk(WithChild(t, p, i, x), b)
  {
    var t' := WithChild(t, p, i, x);
    forall q | q in t'.at && 1 < |q|
      ensures q[..|q| - 1] in t'.at
    {
      ParentKept(t, b, p, i, x, q);
    }
  }

  lemma ParentKept(t: Tree, b: nat, p: Path, i: nat, x: nat, q: Path)
    requires TreeOk(t, b) && IsPlace(t, p, i, b) && NothingBelow(t, p + [i])
    requires q in WithChild(t, p, i, x).at && 1 < |q|
    ensures q[..|q| - 1] in WithChild(t, p, i, x).at
  {
    var parent := q[..|q| - 1];
    assert q == parent + [q[|q| - 1]];
    if q == p + [i] {
      SnocInjective(parent, q[|q| - 1], p, i);
    }
  }

  lemma ChildAfter(t: Tree, p: Path, i: nat, x: nat, q: Path, j: nat)
    ensures Child(WithChild(t, p, i, x), q, j) == if q == p && j == i then x else Child(t, q, j)
  {
    if q + [j] == p + [i] {
      SnocInjective(q, j, p, i);
    }
  }

  /** Writing one pointer changes what is stored at one place. A new indirect block is zeroed. */
  lemma StoredAfter(v: Volume, n: Inode, t: Tree, b: nat, p: Path, i: nat, x: nat)
    requires VolumeOk(v, b) && TreeOk(t, b) && Stored(v, n, t, b) && IsPlace(t, p, i, b)
    requires NothingBelow(t, p + [i]) && x !in t.owner
    requires x != 0 && IsIndirect(p + [i]) ==> x in v.disk && v.disk[x] == Zeros(b)
    ensures p != [] ==> t.at[p] in v.disk && i < |v.disk[t.at[p]]|
    ensures Stored(v.(disk := PutDisk(v.disk, Parent(t, p), p, i, x)), PutInode(n, p, i, x), WithChild(t, p, i, x), b)
  {
    if p != [] { PlaceStored(v, n, t, b, p, i); }
    var t' := WithChild(t, p, i, x);
    var disk' := PutDisk(v.disk, Parent(t, p), p, i, x);
    var n' := PutInode(n, p, i, x);
    forall s | 0 <= s < 15
      ensures Root(n', s) == Child(t', [], s)
    {
      ChildAfter(t, p, i, x, [], s);
    }
    forall q | q in t'.at && IsIndirect(q)
      ensures NodeStored(disk', t', b, q)
    {
      if q == p + [i] {
        NewNodeStored(v, t, b, p, i, x);
      } else {
        OldNodeStored(v, n, t, b, p, i, x, q);
      }
    }
  }

  lemma PlaceStored(v: Volume, n: Inode, t: Tree, b: nat, p: Path, i: nat)
    requires Stored(v, n, t, b) && IsPlace(t, p, i, b) && p != []
    ensures IsIndirect(p) && i < b && t.at[p] in v.disk
    ensures |v.disk[t.at[p]]| == b && v.disk[t.at[p]][i] == Child(t, p, i)
  {
    PlaceIsIndirect(t, p, i, b);
    assert NodeStored(v.disk, t, b, p);
  }

  lemma NewNodeStored(v: Volume, t: Tree, b: nat, p: Path, i: nat, x: nat)
    requires TreeOk(t, b) && IsPlace(t, p, i, b) && NothingBelow(t, p + [i]) && x !in t.owner && x != 0
    requires x in v.disk && v.disk[x] == Zeros(b)
    requires p != [] ==> t.at[p] in v.disk && i < |v.disk[t.at[p]]|
    ensures NodeStored(PutDisk(v.disk, Parent(t, p), p, i, x), WithChild(t, p, i, x), b, p + [i])
  {
    forall j | 0 <= j < b
      ensures Child(WithChild(t, p, i, x), p + [i], j) == 0
    {
      ChildAfter(t, p, i, x, p + [i], j);
    }
  }

  lemma OldNodeStored(v: Volume, n: Inode, t: Tree, b: nat, p: Path, i: nat, x: nat, q: Path)
    requires TreeOk(t, b) && Stored(v, n, t, b) && IsPlace(t, p, i, b)
    requires p != [] ==> t.at[p] in v.disk && i < |v.disk[t.at[p]]|
    requires q in t.at && IsIndirect(q) && q != p + [i]
    ensures NodeStored(PutDisk(v.disk, Parent(t, p), p, i, x), WithChild(t, p, i, x), b, q)
  {
    var t', disk' := WithChild(t, p, i, x), PutDisk(v.disk, Parent(t, p), p, i, x);
    assert NodeStored(v.disk, t, b, q);
    if p != [] && t.at[p] == t.at[q] { OwnedOnce(t, b, p, q); }
    forall j | 0 <= j < b
      ensures disk'[t.at[q]][j] == Child(t', q, j)
    {
      ChildAfter(t, p, i, x, q, j);
    }
  }

  // ----- Keeping the invariant

  /** The blocks that are free or owned. */
  ghost function Blocks(v: Volume, t: Tree): (s: set<nat>) {
    v.free + t.owner.Keys
  }

  /** Nothing is lost: the same blocks as before, and those in more, are free or owned. No other block
      is written. */
  ghost predicate SameBlocks(v: Volume, t: Tree, v': Volume, t': Tree, more: set<nat>) {
    && Blocks(v', t') == Blocks(v, t) + more && v'.disk.Keys == v.disk.Keys
    && forall x :: x in v.disk && x !in Blocks(v', t') ==> v'.disk[x] == v.disk[x]
  }

  /** The blocks that hold pointers. */
  ghost function Pointers(t: Tree): (s: set<nat>) {
    set p | p in t.at && IsIndirect(p) :: t.at[p]
  }

  /** No block is written but those that hold pointers. */
  ghost predicate OnlyPointers(disk: map<nat, seq<nat>>, disk': map<nat, seq<nat>>, t: Tree) {
    && disk'.Keys == disk.Keys
    && forall x :: x in disk && x !in Pointers(t) ==> disk'[x] == disk[x]
  }

  /** Free and owned blocks are counted apart. */
  lemma BlocksCount(v: Volume, t: Tree)
    requires Owned(v, t)
    ensures |Blocks(v, t)| == |v.free| + |t.owner|
  {
    KeysAreSize(t.owner);
    assert |v.free + t.owner.Keys| == |v.free| + |t.owner.Keys|;
  }

  /** What is stored depends on neither the sector count nor the free blocks. */
  lemma StoredFrame(v: Volume, n: Inode, t: Tree, b: nat, free: set<nat>, sect: int)
    requires Stored(v, n, t, b)
    ensures Stored(v.(free := free), n.(sectcount := sect), t, b)
  {
    assert forall s :: 0 <= s < 15 ==> Root(n.(sectcount := sect), s) == Root(n, s);
  }

  lemma ZeroedStored(v: Volume, n: Inode, t: Tree, b: nat, c: nat)
    requires VolumeOk(v, b) && TreeOk(t, b) && Stored(v, n, t, b) && c !in t.owner && c in v.disk
    ensures VolumeOk(v.(disk := v.disk[c := Zeros(b)]), b) && Stored(v.(disk := v.disk[c := Zeros(b)]), n, t, b)
  {
    forall q | q in t.at && IsIndirect(q)
      ensures NodeStored(v.disk[c := Zeros(b)], t, b, q)
    {
      assert NodeStored(v.disk, t, b, q);
    }
  }

  /** The owners after a pointer write. */
  lemma OwnersAfter(t: Tree, b: nat, p: Path, i: nat, x: nat)
    requires TreeOk(t, b) && x !in t.owner
    ensures WithChild(t, p, i, x).owner.Keys == OwnersWith(t.owner.Keys, Child(t, p, i), x)
    ensures 0 !in t.owner && (Child(t, p, i) != 0 ==> Child(t, p, i) in t.owner)
  {
    var was := Child(t, p, i);
    assert (t.owner - {was}).Keys == t.owner.Keys - {was};
  }

  ghost function OwnersWith(owners: set<nat>, was: nat, x: nat): (r: set<nat>) {
    if x == 0 then owners - {was} else owners - {was} + {x}
  }

  ghost function FreeWith(free: set<nat>, was: nat): (r: set<nat>) {
    if was == 0 then free else free + {was}
  }

  lemma KeysAreSize(m: map<nat, Path>)
    ensures |m.Keys| == |m|
  {}

  /** Sets only: replacing one owned block by another. */
  lemma Exchange(owners: set<nat>, free: set<nat>, disk: set<nat>, was: nat, x: nat)
    requires owners <= disk && owners !! free && free <= disk
    requires was != 0 ==> was in owners
    requires x != 0 ==> x in disk && x !in free && x !in owners
    ensures OwnersWith(owners, was, x) <= disk
    ensures OwnersWith(owners, was, x) !! FreeWith(free, was) && FreeWith(free, was) <= disk
  {
  }

  lemma ExchangeUnion(owners: set<nat>, free: set<nat>, was: nat, x: nat)
    requires 0 !in owners && (was != 0 ==> was in owners)
    ensures FreeWith(free, was) + OwnersWith(owners, was, x) == free + owners + (if x == 0 then {} else {x})
  {
    if was == 0 { assert owners - {was} == owners; }
  }

  lemma ExchangeSize(owners: set<nat>, was: nat, x: nat)
    requires 0 !in owners && (was != 0 ==> was in owners) && (x != 0 ==> x !in owners)
    ensures |OwnersWith(owners, was, x)| == |owners| - (if was != 0 then 1 else 0) + (if x != 0 then 1 else 0)
  {
    var rest := owners - {was};
    if was == 0 {
      assert rest == owners;
    }
    assert |rest| == |owners| - (if was != 0 then 1 else 0);
    assert x != 0 ==> |rest + {x}| == |rest| + 1;
  }

  lemma SectorsAfter(spb: nat, k: nat, less: bool, more: bool)
    requires less ==> 0 < k
    ensures Sectors(spb, k - (if less then 1 else 0) + (if more then 1 else 0))
         == Sectors(spb, k) - (if less then spb else 0) + (if more then spb else 0)
  {
  }

  /** The volume after a pointer write that frees the block it replaces. */
  ghost function PutVolume(v: Volume, t: Tree, p: Path, i: nat, x: nat): (v': Volume)
    requires p != [] ==> p in t.at && t.at[p] in v.disk && i < |v.disk[t.at[p]]|
  {
    Volume(PutDisk(v.disk, Parent(t, p), p, i, x), FreeWith(v.free, Child(t, p, i)))
  }

  ghost function PutSect(n: Inode, t: Tree, p: Path, i: nat, x: nat, spb: nat): (n': Inode)
    requires InodeShaped(n) && (p == [] ==> i < 15)
  {
    var less, more := if Child(t, p, i) != 0 then spb else 0, if x != 0 then spb else 0;
    PutInode(n, p, i, x).(sectcount := n.sectcount - less + more)
  }

  /** A pointer to an allocated block that nobody owns, or no pointer, replaces what is at a
      place with nothing below it. A new indirect block is zeroed. */
  lemma PutKeeps(v: Volume, n: Inode, t: Tree, b: nat, spb: nat, p: Path, i: nat, x: nat, v': Volume, n': Inode,
                 t': Tree)
    requires Rep(v, n, t, b, spb) && IsPlace(t, p, i, b) && NothingBelow(t, p + [i])
    requires x != 0 ==> x in v.disk && x !in v.free && x !in t.owner
    requires x != 0 && IsIndirect(p + [i]) ==> v.disk[x] == Zeros(b)
    requires p != [] ==> t.at[p] in v.disk && i < |v.disk[t.at[p]]|
    requires v' == PutVolume(v, t, p, i, x) && n' == PutSect(n, t, p, i, x, spb) && t' == WithChild(t, p, i, x)
    ensures Rep(v', n', t', b, spb) && SameBlocks(v, t, v', t', if x == 0 then {} else {x})
    ensures OnlyPointers(v.disk, v'.disk, t')
  {
    hide TreeOk, Stored, VolumeOk, NothingBelow, Sectors, WithChild, Child, IsPlace, OwnersWith, FreeWith, PutDisk,
         PutSect, SameBlocks, IsIndirect, OnlyPointers;
    PutOnlyPointers(v, t, b, p, i, x);
    PlaceFacts(n, v, t, b, p, i);
    OwnersAfter(t, b, p, i, x);
    var was := Child(t, p, i);
    FreeOnDisk(v, b);
    Exchange(t.owner.Keys, v.free, v.disk.Keys, was, x);
    PutSameBlocks(v, t, b, p, i, x);
    PutStored(v, n, t, b, spb, p, i, x);
    TreeAfter(t, b, p, i, x);
    PutVolumeOk(v, t, b, p, i, x);
    PutCount(n, t, b, spb, p, i, x);
  }

  lemma PutOnlyPointers(v: Volume, t: Tree, b: nat, p: Path, i: nat, x: nat)
    requires IsPlace(t, p, i, b) && (p != [] ==> t.at[p] in v.disk && i < |v.disk[t.at[p]]|)
    ensures OnlyPointers(v.disk, PutVolume(v, t, p, i, x).disk, WithChild(t, p, i, x))
  {
    if p != [] {
      assert p in WithChild(t, p, i, x).at && WithChild(t, p, i, x).at[p] == t.at[p];
      assert t.at[p] in Pointers(WithChild(t, p, i, x));
    }
  }

  lemma PlaceFacts(n: Inode, v: Volume, t: Tree, b: nat, p: Path, i: nat)
    requires TreeOk(t, b) && Stored(v, n, t, b) && IsPlace(t, p, i, b)
    ensures InodeShaped(n) && 0 !in t.owner && (p != [] ==> p in t.at) && (p == [] ==> i < 15)
  {}

  lemma FreeOnDisk(v: Volume, b: nat)
    requires VolumeOk(v, b)
    ensures v.free <= v.disk.Keys && 0 !in v.free
  {}

  /** The only block written is an owned one. */
  lemma PutSameBlocks(v: Volume, t: Tree, b: nat, p: Path, i: nat, x: nat)
    requires TreeOk(t, b) && IsPlace(t, p, i, b) && x !in t.owner
    requires p != [] ==> t.at[p] in v.disk && i < |v.disk[t.at[p]]|
    ensures SameBlocks(v, t, PutVolume(v, t, p, i, x), WithChild(t, p, i, x), if x == 0 then {} else {x})
  {
    hide WithChild, Child, OwnersWith, FreeWith;
    OwnersAfter(t, b, p, i, x);
    ExchangeUnion(t.owner.Keys, v.free, Child(t, p, i), x);
    assert p != [] ==> t.at[p] in t.owner;
  }

  lemma PutStored(v: Volume, n: Inode, t: Tree, b: nat, spb: nat, p: Path, i: nat, x: nat)
    requires VolumeOk(v, b) && TreeOk(t, b) && Stored(v, n, t, b) && IsPlace(t, p, i, b)
    requires NothingBelow(t, p + [i]) && x !in t.owner
    requires x != 0 && IsIndirect(p + [i]) ==> x in v.disk && v.disk[x] == Zeros(b)
    requires p != [] ==> t.at[p] in v.disk && i < |v.disk[t.at[p]]|
    ensures Stored(PutVolume(v, t, p, i, x), PutSect(n, t, p, i, x, spb), WithChild(t, p, i, x), b)
  {
    StoredAfter(v, n, t, b, p, i, x);
    var v1 := v.(disk := PutDisk(v.disk, Parent(t, p), p, i, x));
    var n1 := PutInode(n, p, i, x);
    StoredFrame(v1, n1, WithChild(t, p, i, x), b, FreeWith(v.free, Child(t, p, i)),
                PutSect(n, t, p, i, x, spb).sectcount);
  }

  lemma PutVolumeOk(v: Volume, t: Tree, b: nat, p: Path, i: nat, x: nat)
    requires VolumeOk(v, b) && (Child(t, p, i) != 0 ==> Child(t, p, i) in v.disk)
    requires p != [] ==> p in t.at && t.at[p] in v.disk && i < |v.disk[t.at[p]]|
    ensures VolumeOk(PutVolume(v, t, p, i, x), b)
  {
  }

  lemma OwnersCount(t: Tree, b: nat, p: Path, i: nat, x: nat)
    requires TreeOk(t, b) && x !in t.owner
    ensures |WithChild(t, p, i, x).owner|
         == |t.owner| - (if Child(t, p, i) != 0 then 1 else 0) + (if x != 0 then 1 else 0)
    ensures Child(t, p, i) != 0 ==> 0 < |t.owner|
  {
    OwnersAfter(t, b, p, i, x);
    KeysAreSize(t.owner);
    KeysAreSize(WithChild(t, p, i, x).owner);
    ExchangeSize(t.owner.Keys, Child(t, p, i), x);
  }

  lemma PutCount(n: Inode, t: Tree, b: nat, spb: nat, p: Path, i: nat, x: nat)
    requires TreeOk(t, b) && x !in t.owner && InodeShaped(n) && (p == [] ==> i < 15)
    requires n.sectcount == Sectors(spb, |t.owner|)
    ensures PutSect(n, t, p, i, x, spb).sectcount == Sectors(spb, |WithChild(t, p, i, x).owner|)
  {
    hide TreeOk, Child, WithChild, Sectors;
    OwnersCount(t, b, p, i, x);
    SectorsAfter(spb, |t.owner|, Child(t, p, i) != 0, x != 0);
  }
}
