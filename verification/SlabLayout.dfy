/**
 Where the objects of a slab are (kernel-src/mm/slab.c). A slab is a page whose last 40 bytes are
 its header. Small objects sit in the page, each followed by its link in the free list. Large
 objects sit in memory of their own, and the page holds the links.
 */
module SlabLayout {
  import opened Arith

  const PAGE_SIZE: nat := 4096
  const DATA_SIZE: nat := 4056
  const CUTOFF: nat := 512
  const INDIRECT_COUNT: nat := 16

  datatype Layout = Layout(size: nat, truesize: nat, count: nat)

  predicate Direct(l: Layout) {
    l.size < CUTOFF
  }

  function RoundUp(x: nat, n: nat): (r: nat)
    requires 0 < n
  {
    (x + n - 1) / n * n
  }

  /** The layout that slab_newcache chooses. */
  function LayoutFor(size: nat, alignment: nat): (l: Layout)
    requires 0 < size
  {
    var a := if alignment == 0 then 8 else alignment;
    var truesize := RoundUp(if size < CUTOFF then size + 8 else size, a);
    Layout(size, truesize, if truesize == 0 then 0 else if size < CUTOFF then DATA_SIZE / truesize else INDIRECT_COUNT)
  }

  predicate LayoutOk(l: Layout) {
    && 0 < l.size <= l.truesize
    && (if Direct(l) then l.size + 8 <= l.truesize && l.count * l.truesize <= DATA_SIZE else l.count == INDIRECT_COUNT)
  }

  lemma RoundUpBounds(x: nat, n: nat)
    requires 0 < n
    ensures x <= RoundUp(x, n) < x + n
  {}

  lemma LayoutForOk(size: nat, alignment: nat)
    requires 0 < size
    ensures LayoutOk(LayoutFor(size, alignment))
  {
    var a := if alignment == 0 then 8 else alignment;
    RoundUpBounds(if size < CUTOFF then size + 8 else size, a);
    var t := LayoutFor(size, alignment).truesize;
    assert DATA_SIZE / t * t <= DATA_SIZE;
  }

  /** Small objects with an alignment of at most half a page have at least two in a slab, hence a
      slab of one object or none comes from a large alignment only. */
  lemma AtLeastTwo(size: nat, alignment: nat)
    requires 0 < size
    ensures 2 <= LayoutFor(size, alignment).count
       <==> size >= CUTOFF || LayoutFor(size, alignment).truesize <= DATA_SIZE / 2
  {
    LayoutForOk(size, alignment);
    var l := LayoutFor(size, alignment);
    if size < CUTOFF {
      var q := DATA_SIZE / l.truesize;
      assert q * l.truesize <= DATA_SIZE < (q + 1) * l.truesize;
      if q >= 2 { MulMono(2, q, l.truesize); } else { MulMono(q + 1, 2, l.truesize); }
    }
  }

  /** The link and the address of object k of a slab at page p whose large objects are at b. */
  function Slot(l: Layout, p: nat, k: nat): (a: nat) {
    if Direct(l) then p + k * l.truesize + l.size else p + 8 * k
  }

  function Object(l: Layout, p: nat, b: nat, k: nat): (x: nat) {
    if Direct(l) then p + k * l.truesize else b + k * l.truesize
  }

  /** What takeobject makes of a link, and returnobject of an object. */
  function ObjectOf(l: Layout, p: nat, b: nat, a: nat): (x: int)
    requires !Direct(l) ==> p <= a
  {
    if Direct(l) then a - l.size else b + (a - p) / 8 * l.truesize
  }

  function SlotOf(l: Layout, p: nat, b: nat, x: nat): (a: nat)
    requires !Direct(l) ==> b <= x && 0 < l.truesize
  {
    if Direct(l) then x + l.size else p + 8 * ((x - b) / l.truesize)
  }

  lemma SlotRoundTrip(l: Layout, p: nat, b: nat, k: nat)
    requires LayoutOk(l)
    ensures ObjectOf(l, p, b, Slot(l, p, k)) == Object(l, p, b, k)
    ensures SlotOf(l, p, b, Object(l, p, b, k)) == Slot(l, p, k)
  {
    DivModUnique(k * l.truesize, l.truesize, k, 0);
  }

  lemma StepsFit(l: Layout, j: nat, k: nat)
    requires j < k
    ensures j * l.truesize + l.truesize <= k * l.truesize
  {
    MulMono(j + 1, k, l.truesize);
  }

  /** Links of different objects are at different addresses within the page, eight bytes apart. */
  lemma SlotsApart(l: Layout, p: nat, j: nat, k: nat)
    requires LayoutOk(l) && j < k < l.count
    ensures p <= Slot(l, p, j) && Slot(l, p, j) + 8 <= Slot(l, p, k) && Slot(l, p, k) + 8 <= p + DATA_SIZE
  {
    StepsFit(l, j, k);
    StepsFit(l, k, l.count);
  }

  lemma SlotInPage(l: Layout, p: nat, k: nat)
    requires LayoutOk(l) && k < l.count
    ensures p <= Slot(l, p, k) && Slot(l, p, k) + 8 <= p + DATA_SIZE
  {
    StepsFit(l, k, l.count);
  }

  /** Objects of a slab are disjoint, do not reach their links, and lie within the slab. */
  lemma ObjectsApart(l: Layout, p: nat, b: nat, j: nat, k: nat)
    requires LayoutOk(l) && j < k < l.count
    ensures Object(l, p, b, j) + l.size <= Object(l, p, b, k)
    ensures Direct(l) ==> Object(l, p, b, j) + l.size <= Slot(l, p, j) && Slot(l, p, j) + 8 <= Object(l, p, b, k)
  {
    StepsFit(l, j, k);
  }

  lemma ObjectInSlab(l: Layout, p: nat, b: nat, k: nat)
    requires LayoutOk(l) && k < l.count
    ensures Direct(l) ==> p <= Object(l, p, b, k) && Object(l, p, b, k) + l.size + 8 <= p + DATA_SIZE
    ensures !Direct(l) ==> b <= Object(l, p, b, k) && Object(l, p, b, k) + l.size <= b + l.count * l.truesize
  {
    StepsFit(l, k, l.count);
  }

  /** A small object's page is found by rounding its address down. */
  lemma PageOfObject(l: Layout, p: nat, b: nat, k: nat)
    requires LayoutOk(l) && Direct(l) && k < l.count && p % PAGE_SIZE == 0
    ensures Object(l, p, b, k) / PAGE_SIZE * PAGE_SIZE == p
  {
    ObjectInSlab(l, p, b, k);
    var x := Object(l, p, b, k);
    assert p == p / PAGE_SIZE * PAGE_SIZE;
    DivModUnique(x, PAGE_SIZE, p / PAGE_SIZE, x - p);
  }
}
