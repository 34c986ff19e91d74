/**
 The block and inode allocator of kernel-src/fs/ext2.c: one bitmap and one free count per block
 group, a total in the superblock, and a hint below which every group is full. A set bit is a
 used structure. The same code serves blocks and inodes; they differ in the id of the first
 structure and in the number of structures per group.
 */
module Ext2Alloc {
  import opened Arith
  import opened Common

  /** A byte of a bitmap, least significant bit first. */
  type bits = b: seq<bool> | |b| == 8 witness [true, true, true, true, true, true, true, true]

  type bitmap = seq<bits>

  /** Structure k of a group. */
  predicate Bit(bm: bitmap, k: nat)
    requires k < 8 * |bm|
  {
    bm[k / 8][k % 8]
  }

  // ----- Counting free structures

  function Clear(s: seq<bool>): (n: nat)
    ensures n <= |s|
  {
    if s == [] then 0 else (if s[0] then 0 else 1) + Clear(s[1..])
  }

  function Free(bm: bitmap): (n: nat) {
    if bm == [] then 0 else Clear(bm[0]) + Free(bm[1..])
  }

  function Total(free: seq<nat>): (n: nat) {
    if free == [] then 0 else free[0] + Total(free[1..])
  }

  lemma {:induction false} ClearUpdate(s: seq<bool>, i: nat, v: bool)
    requires i < |s|
    ensures Clear(s[i := v]) == Clear(s) - (if s[i] then 0 else 1) + (if v then 0 else 1)
  {
    if i == 0 {
      assert s[0 := v][1..] == s[1..];
    } else {
      assert s[i := v][1..] == s[1..][i - 1 := v];
      ClearUpdate(s[1..], i - 1, v);
    }
  }

  lemma {:induction false} NoneClear(s: seq<bool>)
    ensures Clear(s) == 0 <==> forall i :: 0 <= i < |s| ==> s[i]
  {
    if s != [] {
      NoneClear(s[1..]);
      if Clear(s) == 0 {
        forall i | 0 <= i < |s| ensures s[i] { if 0 < i { assert s[1..][i - 1]; } }
      } else if s[0] {
        var i :| 0 <= i < |s[1..]| && !s[1..][i];
        assert !s[i + 1];
      }
    }
  }

  lemma {:induction false} FreeUpdate(bm: bitmap, i: nat, b: bits)
    requires i < |bm|
    ensures Free(bm[i := b]) == Free(bm) - Clear(bm[i]) + Clear(b)
  {
    if i == 0 {
      assert bm[0 := b][1..] == bm[1..];
    } else {
      assert bm[i := b][1..] == bm[1..][i - 1 := b];
      FreeUpdate(bm[1..], i - 1, b);
    }
  }

  lemma {:induction false} NoneFree(bm: bitmap)
    ensures Free(bm) == 0 <==> forall i :: 0 <= i < |bm| ==> Clear(bm[i]) == 0
  {
    if bm != [] {
      NoneFree(bm[1..]);
      if Free(bm) == 0 {
        forall i | 0 <= i < |bm| ensures Clear(bm[i]) == 0 { if 0 < i { assert bm[i] == bm[1..][i - 1]; } }
      } else if Clear(bm[0]) == 0 {
        var i :| 0 <= i < |bm[1..]| && Clear(bm[1..][i]) != 0;
        assert Clear(bm[i + 1]) != 0;
      }
    }
  }

  lemma {:induction false} TotalUpdate(free: seq<nat>, g: nat, n: nat)
    requires g < |free|
    ensures Total(free[g := n]) == Total(free) - free[g] + n
  {
    if g == 0 {
      assert free[0 := n][1..] == free[1..];
    } else {
      assert free[g := n][1..] == free[1..][g - 1 := n];
      TotalUpdate(free[1..], g - 1, n);
    }
  }

  lemma {:induction false} TotalZero(free: seq<nat>)
    ensures Total(free) == 0 <==> forall g :: 0 <= g < |free| ==> free[g] == 0
  {
    if free != [] {
      TotalZero(free[1..]);
      if Total(free) == 0 {
        forall g | 0 <= g < |free| ensures free[g] == 0 { if 0 < g { assert free[g] == free[1..][g - 1]; } }
      } else if free[0] == 0 {
        var g :| 0 <= g < |free[1..]| && free[1..][g] != 0;
        assert free[g + 1] != 0;
      }
    }
  }

  // ----- The bitmaps of all groups

  /** Layout of the structures: id of the first one, and number per group. */
  datatype Layout = Layout(first: nat, perGroup: nat) {
    predicate Valid() { 0 < perGroup && perGroup % 8 == 0 }

    function Id(g: nat, k: nat): (id: nat) { first + g * perGroup + k }

    /** BLOCK_GETGROUP and INODE_GETGROUP */
    function Group(id: nat): (g: nat)
      requires Valid() && first <= id
    {
      DivNonNegative(id - first, perGroup);
      (id - first) / perGroup
    }

    /** BLOCK_GETINDEX and INODE_GETINDEX */
    function Index(id: nat): (k: nat)
      requires Valid() && first <= id
      ensures k < perGroup
    {
      (id - first) % perGroup
    }
  }

  lemma DivNonNegative(x: nat, n: nat)
    requires 0 < n
    ensures 0 <= x / n
  {}

  /** Splitting an id into group and index, and putting it together again. */
  lemma IdRoundTrip(l: Layout, g: nat, k: nat)
    requires l.Valid() && k < l.perGroup
    ensures l.first <= l.Id(g, k) && l.Group(l.Id(g, k)) == g && l.Index(l.Id(g, k)) == k
  {
    MulMono(0, g, l.perGroup);
    DivModUnique(l.Id(g, k) - l.first, l.perGroup, g, k);
  }

  lemma SplitRoundTrip(l: Layout, id: nat)
    requires l.Valid() && l.first <= id
    ensures l.Id(l.Group(id), l.Index(id)) == id
  {
  }

  ghost predicate Shaped(l: Layout, bitmaps: seq<bitmap>) {
    l.Valid() && forall g :: 0 <= g < |bitmaps| ==> 8 * |bitmaps[g]| == l.perGroup
  }

  /** A structure of the file system that is not in use. */
  ghost predicate IsFree(l: Layout, bitmaps: seq<bitmap>, id: nat)
    requires Shaped(l, bitmaps)
  {
    l.first <= id && l.Group(id) < |bitmaps| && !Bit(bitmaps[l.Group(id)], l.Index(id))
  }

  function SetBit(bm: bitmap, k: nat, v: bool): (bm': bitmap)
    requires k < 8 * |bm|
    ensures |bm'| == |bm|
  {
    bm[k / 8 := bm[k / 8][k % 8 := v]]
  }

  lemma BitAfter(bm: bitmap, k: nat, v: bool, j: nat)
    requires k < 8 * |bm| && j < 8 * |bm|
    ensures Bit(SetBit(bm, k, v), j) == if j == k then v else Bit(bm, j)
  {
    assert j == k <==> j / 8 == k / 8 && j % 8 == k % 8;
  }

  lemma FreeAfter(bm: bitmap, k: nat, v: bool)
    requires k < 8 * |bm| && Bit(bm, k) != v
    ensures Free(SetBit(bm, k, v)) == Free(bm) + (if v then -1 else 1)
  {
    ClearUpdate(bm[k / 8], k % 8, v);
    FreeUpdate(bm, k / 8, bm[k / 8][k % 8 := v]);
  }

  lemma {:induction false} NoFreeBit(bm: bitmap)
    ensures Free(bm) == 0 <==> forall k :: 0 <= k < 8 * |bm| ==> Bit(bm, k)
  {
    NoneFree(bm);
    if Free(bm) == 0 {
      forall k | 0 <= k < 8 * |bm| ensures Bit(bm, k) { NoneClear(bm[k / 8]); }
    } else {
      var i :| 0 <= i < |bm| && Clear(bm[i]) != 0;
      NoneClear(bm[i]);
      var o :| 0 <= o < 8 && !bm[i][o];
      assert !Bit(bm, 8 * i + o);
    }
  }

  /** Changing the bit of one structure changes the set of free ones by exactly that one. */
  lemma OneFreeIdChanges(l: Layout, bitmaps: seq<bitmap>, id: nat, v: bool)
    requires Shaped(l, bitmaps) && l.first <= id && l.Group(id) < |bitmaps|
    ensures var g := l.Group(id);
            var bitmaps' := bitmaps[g := SetBit(bitmaps[g], l.Index(id), v)];
            && Shaped(l, bitmaps')
            && forall other: nat :: IsFree(l, bitmaps', other) == if other == id then !v else IsFree(l, bitmaps, other)
  {
    var g := l.Group(id);
    var bitmaps' := bitmaps[g := SetBit(bitmaps[g], l.Index(id), v)];
    forall other: nat
      ensures IsFree(l, bitmaps', other) == if other == id then !v else IsFree(l, bitmaps, other)
    {
      if l.first <= other && l.Group(other) == g {
        SplitRoundTrip(l, id);
        SplitRoundTrip(l, other);
        BitAfter(bitmaps[g], l.Index(id), v, l.Index(other));
      }
    }
  }

  // ----- The set of free structures

  /** Whether an id belongs to one of the groups. */
  predicate InRange(l: Layout, groups: nat, id: nat)
    requires l.Valid()
  {
    l.first <= id && l.Group(id) < groups
  }

  function ClearIds(s: seq<bool>, base: nat): (ids: set<nat>) {
    if s == [] then {} else (if s[0] then {} else {base}) + ClearIds(s[1..], base + 1)
  }

  function GroupIds(bm: bitmap, base: nat): (ids: set<nat>) {
    if bm == [] then {} else ClearIds(bm[0], base) + GroupIds(bm[1..], base + 8)
  }

  function IdsFrom(bitmaps: seq<bitmap>, base: nat, perGroup: nat): (ids: set<nat>) {
    if bitmaps == [] then {} else GroupIds(bitmaps[0], base) + IdsFrom(bitmaps[1..], base + perGroup, perGroup)
  }

  /** The free structures of all groups. */
  function FreeIds(l: Layout, bitmaps: seq<bitmap>): (ids: set<nat>) {
    IdsFrom(bitmaps, l.first, l.perGroup)
  }

  lemma {:induction false} ClearIdsAt(s: seq<bool>, base: nat, x: nat)
    ensures x in ClearIds(s, base) <==> base <= x < base + |s| && !s[x - base]
  {
    if s != [] { ClearIdsAt(s[1..], base + 1, x); }
  }

  lemma {:induction false} ClearIdsSize(s: seq<bool>, base: nat)
    ensures |ClearIds(s, base)| == Clear(s)
  {
    if s != [] {
      var rest := ClearIds(s[1..], base + 1);
      ClearIdsSize(s[1..], base + 1);
      ClearIdsAt(s[1..], base + 1, base);
      DisjointSize(if s[0] then {} else {base}, rest);
    }
  }

  lemma {:induction false} GroupIdsAt(bm: bitmap, base: nat, x: nat)
    ensures x in GroupIds(bm, base) <==> base <= x < base + 8 * |bm| && !Bit(bm, x - base)
  {
    if bm != [] {
      ClearIdsAt(bm[0], base, x);
      GroupIdsAt(bm[1..], base + 8, x);
      if base + 8 <= x < base + 8 * |bm| {
        NextByte(bm, x - base);
      }
    }
  }

  lemma NextByte(bm: bitmap, k: nat)
    requires 8 <= k < 8 * |bm|
    ensures Bit(bm, k) == Bit(bm[1..], k - 8)
  {
    assert k / 8 == (k - 8) / 8 + 1 && k % 8 == (k - 8) % 8;
  }

  lemma {:induction false} GroupIdsSize(bm: bitmap, base: nat)
    ensures |GroupIds(bm, base)| == Free(bm)
  {
    if bm != [] {
      var first, rest := ClearIds(bm[0], base), GroupIds(bm[1..], base + 8);
      ClearIdsSize(bm[0], base);
      GroupIdsSize(bm[1..], base + 8);
      forall x | x in first
        ensures x !in rest
      {
        ClearIdsAt(bm[0], base, x);
        GroupIdsAt(bm[1..], base + 8, x);
      }
      DisjointSize(first, rest);
    }
  }

  lemma DisjointSize(a: set<nat>, b: set<nat>)
    requires a !! b
    ensures |a + b| == |a| + |b|
  {}

  ghost predicate EachGroup(bitmaps: seq<bitmap>, perGroup: nat) {
    0 < perGroup && forall g :: 0 <= g < |bitmaps| ==> 8 * |bitmaps[g]| == perGroup
  }

  /** Bit k of the groups laid end to end. */
  ghost predicate ClearAt(bitmaps: seq<bitmap>, perGroup: nat, k: nat)
    requires EachGroup(bitmaps, perGroup)
  {
    DivNonNegative(k, perGroup);
    k / perGroup < |bitmaps| && !Bit(bitmaps[k / perGroup], k % perGroup)
  }

  lemma ClearAtNext(bitmaps: seq<bitmap>, perGroup: nat, k: nat)
    requires EachGroup(bitmaps, perGroup) && bitmaps != []
    ensures EachGroup(bitmaps[1..], perGroup)
    ensures ClearAt(bitmaps, perGroup, k)
       <==> if k < perGroup then !Bit(bitmaps[0], k) else ClearAt(bitmaps[1..], perGroup, k - perGroup)
  {
    if k < perGroup {
      DivModUnique(k, perGroup, 0, k);
    } else {
      var j := k - perGroup;
      DivNonNegative(j, perGroup);
      DivModUnique(k, perGroup, j / perGroup + 1, j % perGroup);
    }
  }

  lemma {:induction false} IdsFromAt(bitmaps: seq<bitmap>, base: nat, perGroup: nat, x: nat)
    requires EachGroup(bitmaps, perGroup)
    ensures x in IdsFrom(bitmaps, base, perGroup) <==> base <= x && ClearAt(bitmaps, perGroup, x - base)
  {
    hide ClearAt, GroupIds;
    if bitmaps == [] {
      NoGroup(perGroup, if base <= x then x - base else 0);
    } else {
      ClearAtNext(bitmaps, perGroup, if base <= x then x - base else 0);
      GroupIdsAt(bitmaps[0], base, x);
      IdsFromAt(bitmaps[1..], base + perGroup, perGroup, x);
    }
  }

  lemma NoGroup(perGroup: nat, k: nat)
    requires 0 < perGroup
    ensures !ClearAt([], perGroup, k)
  {
    hide Bit;
    DivNonNegative(k, perGroup);
  }

  lemma CountsTail(bitmaps: seq<bitmap>)
    requires bitmaps != []
    ensures Total(Counts(bitmaps)) == Free(bitmaps[0]) + Total(Counts(bitmaps[1..]))
  {
    hide Free;
    assert Counts(bitmaps)[1..] == Counts(bitmaps[1..]);
  }

  lemma IdsApart(bitmaps: seq<bitmap>, base: nat, perGroup: nat)
    requires EachGroup(bitmaps, perGroup) && bitmaps != []
    ensures GroupIds(bitmaps[0], base) !! IdsFrom(bitmaps[1..], base + perGroup, perGroup)
  {
    hide ClearAt, GroupIds, IdsFrom, Bit;
    forall x | x in GroupIds(bitmaps[0], base)
      ensures x !in IdsFrom(bitmaps[1..], base + perGroup, perGroup)
    {
      GroupIdsAt(bitmaps[0], base, x);
      IdsFromAt(bitmaps[1..], base + perGroup, perGroup, x);
    }
  }

  lemma {:induction false} IdsFromSize(bitmaps: seq<bitmap>, base: nat, perGroup: nat)
    requires EachGroup(bitmaps, perGroup)
    ensures |IdsFrom(bitmaps, base, perGroup)| == Total(Counts(bitmaps))
  {
    hide GroupIds, Counts, Total, Free;
    if bitmaps == [] {
      NoCounts();
    } else {
      GroupIdsSize(bitmaps[0], base);
      IdsFromSize(bitmaps[1..], base + perGroup, perGroup);
      IdsApart(bitmaps, base, perGroup);
      DisjointSize(GroupIds(bitmaps[0], base), IdsFrom(bitmaps[1..], base + perGroup, perGroup));
      CountsTail(bitmaps);
    }
  }

  lemma NoCounts()
    ensures Total(Counts([])) == 0
  {}

  function Counts(bitmaps: seq<bitmap>): (free: seq<nat>) {
    seq(|bitmaps|, g requires 0 <= g < |bitmaps| => Free(bitmaps[g]))
  }

  /** The free structures are those with a clear bit, and their number is the sum of the counts. */
  lemma FreeIdsIs(l: Layout, bitmaps: seq<bitmap>)
    requires Shaped(l, bitmaps)
    ensures forall id: nat :: id in FreeIds(l, bitmaps) <==> IsFree(l, bitmaps, id)
    ensures |FreeIds(l, bitmaps)| == Total(Counts(bitmaps))
  {
    IdsFromSize(bitmaps, l.first, l.perGroup);
    forall id: nat
      ensures id in FreeIds(l, bitmaps) <==> IsFree(l, bitmaps, id)
    {
      IdsFromAt(bitmaps, l.first, l.perGroup, id);
    }
  }

  class Allocator {
    const layout: Layout
    var bitmaps: seq<bitmap>
    var free: seq<nat>
    var lowest: nat
    var unallocated: nat

    /** Every count agrees with the bitmaps, and the groups below the hint are full. Block zero,
        which exists where blocks are larger than the boot sector, is in use. */
    ghost predicate Valid()
      reads this
    {
      && Shaped(layout, bitmaps) && |free| == |bitmaps| && lowest <= |bitmaps|
      && (forall g :: 0 <= g < |bitmaps| ==> free[g] == Free(bitmaps[g]))
      && unallocated == Total(free)
      && (forall g :: 0 <= g < lowest ==> free[g] == 0)
      && !IsFree(layout, bitmaps, 0)
    }

    /** A mounted file system, with counts that agree with its bitmaps. The hint starts at the first
        group. */
    constructor (layout: Layout, bitmaps: seq<bitmap>, free: seq<nat>, unallocated: nat)
      requires Shaped(layout, bitmaps) && !IsFree(layout, bitmaps, 0)
      requires free == Counts(bitmaps) && unallocated == Total(free)
      ensures Valid() && this.layout == layout && this.bitmaps == bitmaps && this.unallocated == unallocated
    {
      this.layout, this.bitmaps, this.free, this.unallocated := layout, bitmaps, free, unallocated;
      lowest := 0;
    }

    /** The count of the superblock is the number of free structures. */
    lemma CountIsFree()
      requires Valid()
      ensures unallocated == |FreeIds(layout, bitmaps)|
    {
      FreeIdsIs(layout, bitmaps);
      assert free == Counts(bitmaps);
    }

    /** allocatestructure: the result is the least free id of the whole file system, and ENOSPC
        means that there is none. */
    method Allocate() returns (r: Option<nat>)
      requires Valid()
      modifies this`bitmaps, this`free, this`lowest, this`unallocated
      ensures Valid() && |bitmaps| == |old(bitmaps)|
      ensures r.None? ==> bitmaps == old(bitmaps) && unallocated == old(unallocated)
      ensures r.None? ==> forall id: nat :: !IsFree(layout, bitmaps, id)
      ensures r.Some? ==> 0 < r.value && IsFree(layout, old(bitmaps), r.value) && unallocated == old(unallocated) - 1
      ensures r.Some? ==> forall id: nat :: IsFree(layout, old(bitmaps), id) ==> r.value <= id
      ensures r.Some? ==>
                forall id: nat :: IsFree(layout, bitmaps, id) == (IsFree(layout, old(bitmaps), id) && id != r.value)
    {
      hide Free, Total, SetBit, Bit;
      if unallocated == 0 {
        NothingFree();
        return None;
      }
      var bg := FindGroup(free, lowest);
      lowest := bg;
      if bg == |free| {
        TotalZero(free);
        NothingFree();
        return None;
      }
      var k := FindClear(bitmaps[bg]);
      var id := layout.Id(bg, k);
      IdRoundTrip(layout, bg, k);
      LeastFree(layout, bitmaps, bg, k);
      FreeAfter(bitmaps[bg], k, true);
      TotalUpdate(free, bg, free[bg] - 1);
      OneFreeIdChanges(layout, bitmaps, id, true);
      bitmaps := bitmaps[bg := SetBit(bitmaps[bg], k, true)];
      free := free[bg := free[bg] - 1];
      if free[bg] == 0 {
        lowest := lowest + 1;
      }
      unallocated := unallocated - 1;
      r := Some(id);
    }

    lemma NothingFree()
      requires Valid() && Total(free) == 0
      ensures forall id: nat :: !IsFree(layout, bitmaps, id)
    {
      TotalZero(free);
      forall id: nat
        ensures !IsFree(layout, bitmaps, id)
      {
        if layout.first <= id && layout.Group(id) < |bitmaps| {
          NoFreeBit(bitmaps[layout.Group(id)]);
        }
      }
    }

    /** freestructure, of a structure that is in use: its assertion holds and the allocation is
        undone. */
    method Release(id: nat)
      requires Valid() && id != 0 && layout.first <= id && layout.Group(id) < |bitmaps| && !IsFree(layout, bitmaps, id)
      modifies this`bitmaps, this`free, this`lowest, this`unallocated
      ensures Valid() && |bitmaps| == |old(bitmaps)|
      ensures forall other: nat ::
                IsFree(layout, bitmaps, other) == (IsFree(layout, old(bitmaps), other) || other == id)
      ensures unallocated == old(unallocated) + 1
    {
      hide Free, Total, SetBit;
      var bg, index := layout.Group(id), layout.Index(id);
      assert Bit(bitmaps[bg], index);
      FreeAfter(bitmaps[bg], index, false);
      TotalUpdate(free, bg, free[bg] + 1);
      OneFreeIdChanges(layout, bitmaps, id, false);
      bitmaps := bitmaps[bg := SetBit(bitmaps[bg], index, false)];
      free := free[bg := free[bg] + 1];
      if bg < lowest {
        lowest := bg;
      }
      unallocated := unallocated + 1;
    }
  }

  /** The scan for a group with free structures, from the hint on. */
  method FindGroup(free: seq<nat>, lowest: nat) returns (bg: nat)
    requires lowest <= |free| && forall g :: 0 <= g < lowest ==> free[g] == 0
    ensures bg <= |free| && (forall g :: 0 <= g < bg ==> free[g] == 0)
    ensures bg < |free| ==> free[bg] != 0
  {
    bg := lowest;
    while bg < |free| && free[bg] == 0
      invariant lowest <= bg <= |free|
      invariant forall g :: 0 <= g < bg ==> free[g] == 0
    {
      bg := bg + 1;
    }
  }

  /** The scan of a bitmap for its first clear bit: byte by byte, then within the byte. */
  method FindClear(bm: bitmap) returns (k: nat)
    requires Free(bm) != 0
    ensures k < 8 * |bm| && !Bit(bm, k)
    ensures forall j :: 0 <= j < k ==> Bit(bm, j)
  {
    NoneFree(bm);
    var i := 0;
    while i < |bm| && Clear(bm[i]) == 0
      invariant 0 <= i <= |bm|
      invariant forall n :: 0 <= n < i ==> Clear(bm[n]) == 0
    {
      i := i + 1;
    }
    NoneClear(bm[i]);
    var o := 0;
    while bm[i][o]
      invariant 0 <= o < 8
      invariant forall n :: 0 <= n < o ==> bm[i][n]
      decreases 8 - o
    {
      o := o + 1;
    }
    k := 8 * i + o;
    forall j | 0 <= j < k
      ensures Bit(bm, j)
    {
      if j / 8 < i { NoneClear(bm[j / 8]); }
    }
  }

  lemma LeastFree(l: Layout, bitmaps: seq<bitmap>, g: nat, k: nat)
    requires Shaped(l, bitmaps) && g < |bitmaps| && k < l.perGroup
    requires forall h :: 0 <= h < g ==> Free(bitmaps[h]) == 0
    requires forall j :: 0 <= j < k ==> Bit(bitmaps[g], j)
    ensures forall id: nat :: IsFree(l, bitmaps, id) ==> l.Id(g, k) <= id
  {
    forall id: nat | IsFree(l, bitmaps, id)
      ensures l.Id(g, k) <= id
    {
      var h, j := l.Group(id), l.Index(id);
      SplitRoundTrip(l, id);
      if h < g {
        NoFreeBit(bitmaps[h]);
      } else {
        IdOrder(l, g, k, h, j);
      }
    }
  }

  lemma IdOrder(l: Layout, g: nat, k: nat, h: nat, j: nat)
    requires k < l.perGroup && (g < h || (g == h && k <= j))
    ensures l.Id(g, k) <= l.Id(h, j)
  {
    if g < h {
      MulMono(g + 1, h, l.perGroup);
      assert (g + 1) * l.perGroup == g * l.perGroup + l.perGroup;
    }
  }
}
