/**
 The block tree of an ext2 inode (kernel-src/fs/ext2.c): twelve direct pointers and the roots of
 a singly, a doubly and a triply indirect tree. An indirect block holds b pointers. The owner
 map of an inode gives, for every allocated position of the tree, the block that sits there.
 */
module Ext2Tree {
  import opened Arith

  /** A position: the slot of the inode, then an index into each indirect block on the way. */
  type Path = seq<nat>

  /** The owner map of an inode, both ways: the block at a position, and the position of a block. */
  datatype Tree = Tree(at: map<Path, nat>, owner: map<nat, Path>)

  /** Levels of indirection below a slot of the inode. */
  function Height(slot: nat): (h: nat) {
    if slot < 12 then 0 else slot - 11
  }

  predicate ValidPath(p: Path, b: nat) {
    && p != [] && p[0] < 15 && |p| <= Height(p[0]) + 1
    && forall k :: 1 <= k < |p| ==> p[k] < b
  }

  /** A position that holds an indirect block, and one that holds a block of the file. */
  predicate IsIndirect(p: Path) {
    p != [] && |p| <= Height(p[0])
  }

  predicate IsData(p: Path) {
    p != [] && |p| == Height(p[0]) + 1
  }

  // ----- From block indices to positions

  /** Blocks that an inode can address. */
  function Capacity(b: nat): (n: nat) {
    12 + b + b * b + b * b * b
  }

  /** The split of a block index that both getinodeblock and setinodeblock make. */
  function PathOf(index: nat, b: nat): (p: Path)
    requires 0 < b
  {
    if index < 12 then [index] else
    var i := index - 12;
    var singly, singlyIndex := i / b, i % b;
    if singly == 0 then [12, singlyIndex] else
    var doubly, doublyIndex := (singly - 1) / b, (singly - 1) % b;
    if doubly == 0 then [13, doublyIndex, singlyIndex]
    else [14, (doubly - 1) % b, doublyIndex, singlyIndex]
  }

  /** The index that a data position stands for. */
  function IndexOf(p: Path, b: nat): (index: nat)
    requires ValidPath(p, b) && IsData(p)
  {
    if p[0] < 12 then p[0]
    else if p[0] == 12 then 12 + p[1]
    else if p[0] == 13 then 12 + (p[1] + 1) * b + p[2]
    else 12 + ((p[1] + 1) * b + p[2] + 1) * b + p[3]
  }

  lemma QuotientBound(i: nat, b: nat, n: nat)
    requires 0 < b && i < n * b
    ensures i / b < n
  {
    if n <= i / b {
      MulMono(n, i / b, b);
    }
  }

  /** The split is inverted by IndexOf on every index an inode can address, hence injective. */
  lemma SplitInverts(index: nat, b: nat)
    requires 0 < b && index < Capacity(b)
    ensures ValidPath(PathOf(index, b), b) && IsData(PathOf(index, b))
    ensures IndexOf(PathOf(index, b), b) == index
  {
    if 12 <= index {
      var i := index - 12;
      var singly, z := i / b, i % b;
      SplitBounds(i, b);
      if singly == 0 {
        assert PathOf(index, b) == [12, z];
      } else {
        var doubly, y := (singly - 1) / b, (singly - 1) % b;
        if doubly == 0 {
          assert PathOf(index, b) == [13, y, z];
        } else {
          assert PathOf(index, b) == [14, doubly - 1, y, z] by { DivModUnique(doubly - 1, b, 0, doubly - 1); }
        }
      }
    }
  }

  /** The quotients of the split, put together again, and the bound on the last one. */
  lemma SplitBounds(i: nat, b: nat)
    requires 0 < b && i < b + b * b + b * b * b
    ensures var singly := i / b;
            && 0 <= i % b < b && i == singly * b + i % b
            && (singly != 0 ==>
                  var doubly := (singly - 1) / b;
                  && 0 <= (singly - 1) % b < b && singly == doubly * b + (singly - 1) % b + 1
                  && 0 <= doubly <= b)
  {
    var singly := i / b;
    Powers(b);
    SplitOnce(i, b, 1 + b + b * b);
    if singly != 0 {
      SplitOnce(singly - 1, b, 1 + b);
    }
  }

  lemma Powers(b: nat)
    ensures b + b * b + b * b * b == (1 + b + b * b) * b && b + b * b == (1 + b) * b
  {}

  lemma SplitOnce(i: nat, b: nat, n: nat)
    requires 0 < b && i < n * b
    ensures 0 <= i % b < b && i == i / b * b + i % b && 0 <= i / b < n
  {
    QuotientBound(i, b, n);
  }

  lemma SplitInjective(i: nat, j: nat, b: nat)
    requires 0 < b && i < Capacity(b) && j < Capacity(b) && PathOf(i, b) == PathOf(j, b)
    ensures i == j
  {
    SplitInverts(i, b);
    SplitInverts(j, b);
  }

  /** A number written with two digits below a leading quotient. */
  lemma Digits(q: nat, r: nat, b: nat)
    requires r < b
    ensures (q * b + r) / b == q && (q * b + r) % b == r
  {
    DivModUnique(q * b + r, b, q, r);
  }

  lemma DoublyFits(x: nat, y: nat, b: nat)
    requires x < b && y < b
    ensures (x + 1) * b + y < b + b * b
  {
    MulMono(x + 1, b, b);
  }

  lemma TriplyFits(x: nat, y: nat, z: nat, b: nat)
    requires x < b && y < b && z < b
    ensures ((x + 1) * b + y + 1) * b + z < b + b * b + b * b * b
  {
    DoublyFits(x, y, b);
    MulMono((x + 1) * b + y + 1, b + b * b, b);
    assert (b + b * b) * b == b * b + b * b * b;
  }

  /** Every data position is the split of exactly one index. */
  lemma IndexInverts(p: Path, b: nat)
    requires 0 < b && ValidPath(p, b) && IsData(p)
    ensures IndexOf(p, b) < Capacity(b) && PathOf(IndexOf(p, b), b) == p
  {
    if p[0] < 12 {
      DirectInverts(p[0], b);
      assert p == [p[0]];
    } else if p[0] == 12 {
      SinglyInverts(p[1], b);
      assert p == [12, p[1]];
    } else if p[0] == 13 {
      DoublyInverts(p[1], p[2], b);
      assert p == [13, p[1], p[2]];
    } else {
      TriplyInverts(p[1], p[2], p[3], b);
      assert p == [14, p[1], p[2], p[3]];
    }
  }

  lemma DirectInverts(x: nat, b: nat)
    requires x < 12 && 0 < b
    ensures x < Capacity(b) && PathOf(x, b) == [x]
  {}

  lemma SinglyInverts(x: nat, b: nat)
    requires x < b
    ensures 12 + x < Capacity(b) && PathOf(12 + x, b) == [12, x]
  {
    Digits(0, x, b);
  }

  lemma DoublyInverts(x: nat, y: nat, b: nat)
    requires x < b && y < b
    ensures var index := 12 + (x + 1) * b + y;
            12 <= index < Capacity(b) && PathOf(index, b) == [13, x, y]
  {
    DoublyFits(x, y, b);
    Digits(x + 1, y, b);
    Digits(0, x, b);
  }

  lemma TriplyInverts(x: nat, y: nat, z: nat, b: nat)
    requires x < b && y < b && z < b
    ensures var index := 12 + ((x + 1) * b + y + 1) * b + z;
            12 <= index < Capacity(b) && PathOf(index, b) == [14, x, y, z]
  {
    var singly := (x + 1) * b + y + 1;
    TriplyFits(x, y, z, b);
    Digits(singly, z, b);
    Digits(x + 1, y, b);
    Digits(0, x, b);
  }

  // ----- Inode and device

  datatype Inode = Inode(direct: seq<nat>, singly: nat, doubly: nat, triply: nat, sectcount: int)

  predicate InodeShaped(n: Inode) {
    |n.direct| == 12
  }

  function Root(n: Inode, slot: nat): (ptr: nat)
    requires InodeShaped(n) && slot < 15
  {
    if slot < 12 then n.direct[slot] else if slot == 12 then n.singly else if slot == 13 then n.doubly else n.triply
  }

  function SetRoot(n: Inode, slot: nat, ptr: nat): (n': Inode)
    requires InodeShaped(n) && slot < 15
    ensures InodeShaped(n') && n'.sectcount == n.sectcount
    ensures forall s :: 0 <= s < 15 ==> Root(n', s) == if s == slot then ptr else Root(n, s)
  {
    if slot < 12 then n.(direct := n.direct[slot := ptr])
    else if slot == 12 then n.(singly := ptr) else if slot == 13 then n.(doubly := ptr) else n.(triply := ptr)
  }

  /** Blocks of the device as arrays of pointers, and the blocks that are not allocated. */
  datatype Volume = Volume(disk: map<nat, seq<nat>>, free: set<nat>)

  ghost predicate VolumeOk(v: Volume, b: nat) {
    && 0 < b && 0 !in v.disk && v.free <= v.disk.Keys
    && forall x :: x in v.disk ==> |v.disk[x]| == b
  }

  function Zeros(b: nat): (s: seq<nat>) {
    seq(b, _ => 0)
  }

  // ----- The owner map of an inode

  /** The block below position p at index i, or zero. */
  function Child(t: Tree, p: Path, i: nat): (ptr: nat) {
    if p + [i] in t.at then t.at[p + [i]] else 0
  }

  ghost predicate TreeOk(t: Tree, b: nat) {
    && (forall p :: p in t.at ==> ValidPath(p, b) && t.at[p] != 0)
    && (forall p :: p in t.at && 1 < |p| ==> p[..|p| - 1] in t.at)
    && (forall p :: p in t.at ==> t.at[p] in t.owner && t.owner[t.at[p]] == p)
    && (forall x :: x in t.owner ==> t.owner[x] in t.at && t.at[t.owner[x]] == x)
  }

  /** No block is reachable twice. */
  lemma OwnedOnce(t: Tree, b: nat, p: Path, q: Path)
    requires TreeOk(t, b) && p in t.at && q in t.at && t.at[p] == t.at[q]
    ensures p == q
  {
  }

  /** An indirect block holds the pointers that the map says. */
  ghost predicate NodeStored(disk: map<nat, seq<nat>>, t: Tree, b: nat, p: Path)
    requires p in t.at
  {
    t.at[p] in disk && |disk[t.at[p]]| == b && forall i :: 0 <= i < b ==> disk[t.at[p]][i] == Child(t, p, i)
  }

  ghost predicate Stored(v: Volume, n: Inode, t: Tree, b: nat) {
    && InodeShaped(n)
    && (forall s :: 0 <= s < 15 ==> Root(n, s) == Child(t, [], s))
    && (forall p :: p in t.at && IsIndirect(p) ==> NodeStored(v.disk, t, b, p))
  }

  /** Owned blocks are on the device and allocated. */
  ghost predicate Owned(v: Volume, t: Tree) {
    t.owner.Keys <= v.disk.Keys && t.owner.Keys !! v.free
  }

  /** The invariant of an inode: no block is reachable twice, every reachable block is marked
      used, and the sector count is that of the owned blocks, indirect ones included. */
  ghost predicate Rep(v: Volume, n: Inode, t: Tree, b: nat, spb: nat) {
    && VolumeOk(v, b) && TreeOk(t, b) && Stored(v, n, t, b) && Owned(v, t)
    && n.sectcount == Sectors(spb, |t.owner|)
  }

  /** Sectors of k blocks. */
  function Sectors(spb: nat, k: nat): (n: nat) {
    if k == 0 then 0 else Sectors(spb, k - 1) + spb
  }

  lemma {:induction false} SectorsIsProduct(spb: nat, k: nat)
    ensures Sectors(spb, k) == spb * k
  {
    if k > 0 { SectorsIsProduct(spb, k - 1); }
  }

  lemma SnocInjective(p: Path, i: nat, q: Path, j: nat)
    requires p + [i] == q + [j]
    ensures p == q && i == j
  {
    assert (p + [i])[..|p|] == p && (q + [j])[..|q|] == q;
    assert (p + [i])[|p|] == i && (q + [j])[|q|] == j;
  }
}
