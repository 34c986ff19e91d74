/**
 The slab allocator of kernel-src/mm/slab.c: caches of slabs on three lists, and in each slab a
 free list that is threaded through memory.
 */
module Slabs {
  import opened Arith
  import opened Links
  import opened SlabLayout

  /** The slabs on each list, and the objects on the free list of every slab, in order. */
  datatype Lists = Lists(empty: seq<nat>, partial: seq<nat>, full: seq<nat>, free: map<nat, seq<nat>>)

  // ----- The free list of one slab

  function FirstSlot(l: Layout, p: nat, ks: seq<nat>): (a: nat) {
    if ks == [] then 0 else Slot(l, p, ks[0])
  }

  ghost predicate FreeAt(l: Layout, p: nat, ks: seq<nat>, mem: Link, i: nat)
    requires i < |ks|
  {
    ks[i] < l.count && Get(mem, Slot(l, p, ks[i])) == FirstSlot(l, p, ks[i + 1..])
  }

  /** The link of an object that is not free is NULL. */
  ghost predicate TakenAt(l: Layout, p: nat, ks: seq<nat>, mem: Link, k: nat) {
    k < l.count && k !in ks ==> Get(mem, Slot(l, p, k)) == 0
  }

  ghost predicate FreeOk(l: Layout, p: nat, ks: seq<nat>, head: nat, mem: Link) {
    && Distinct(ks) && head == FirstSlot(l, p, ks)
    && (forall i :: 0 <= i < |ks| ==> FreeAt(l, p, ks, mem, i))
    && (forall k :: TakenAt(l, p, ks, mem, k))
  }

  lemma SlotUnique(l: Layout, p: nat, j: nat, q: nat, k: nat)
    requires LayoutOk(l) && j < l.count && k < l.count && p % PAGE_SIZE == 0 && q % PAGE_SIZE == 0
    ensures Slot(l, p, j) == Slot(l, q, k) ==> p == q && j == k
  {
    hide Slot, LayoutOk;
    SlotInPage(l, p, j);
    SlotInPage(l, q, k);
    if Slot(l, p, j) == Slot(l, q, k) {
      SamePage(p, q, Slot(l, p, j));
      if j < k { SlotsApart(l, p, j, k); }
      if k < j { SlotsApart(l, p, k, j); }
    }
  }

  lemma SamePage(p: nat, q: nat, x: nat)
    requires p % PAGE_SIZE == 0 && q % PAGE_SIZE == 0 && p <= x < p + PAGE_SIZE && q <= x < q + PAGE_SIZE
    ensures p == q
  {}

  lemma TakeFree(l: Layout, p: nat, ks: seq<nat>, head: nat, mem: Link)
    requires LayoutOk(l) && p % PAGE_SIZE == 0 && FreeOk(l, p, ks, head, mem) && ks != []
    ensures FreeOk(l, p, ks[1..], Get(mem, head), mem[head := 0])
  {
    hide Slot;
    var rest, mem' := ks[1..], mem[head := 0];
    assert FreeAt(l, p, ks, mem, 0);
    forall i | 0 <= i < |rest|
      ensures FreeAt(l, p, rest, mem', i)
    {
      assert FreeAt(l, p, ks, mem, i + 1) && ks[i + 1] != ks[0] && rest[i + 1..] == ks[i + 2..];
      SlotUnique(l, p, ks[i + 1], p, ks[0]);
    }
    forall k: nat
      ensures TakenAt(l, p, rest, mem', k)
    {
      assert TakenAt(l, p, ks, mem, k) && ks == [ks[0]] + rest;
    }
  }

  lemma ReturnFree(l: Layout, p: nat, ks: seq<nat>, head: nat, mem: Link, k: nat)
    requires LayoutOk(l) && p % PAGE_SIZE == 0 && FreeOk(l, p, ks, head, mem) && k < l.count && k !in ks
    ensures FreeOk(l, p, [k] + ks, Slot(l, p, k), mem[Slot(l, p, k) := head])
  {
    hide Slot;
    var ks', mem' := [k] + ks, mem[Slot(l, p, k) := head];
    forall i | 0 <= i < |ks'|
      ensures FreeAt(l, p, ks', mem', i)
    {
      if i == 0 {
        assert ks'[1..] == ks;
      } else {
        assert FreeAt(l, p, ks, mem, i - 1) && ks'[i + 1..] == ks[i..];
        SlotUnique(l, p, ks[i - 1], p, k);
      }
    }
    forall j: nat
      ensures TakenAt(l, p, ks', mem', j)
    {
      assert TakenAt(l, p, ks, mem, j);
      if j < l.count { SlotUnique(l, p, j, p, k); }
    }
  }

  /** A write to a link of another slab. */
  lemma OtherFree(l: Layout, p: nat, ks: seq<nat>, head: nat, mem: Link, q: nat, k: nat, x: nat)
    requires LayoutOk(l) && p % PAGE_SIZE == 0 && q % PAGE_SIZE == 0
    requires p != q && k < l.count && FreeOk(l, p, ks, head, mem)
    ensures FreeOk(l, p, ks, head, mem[Slot(l, q, k) := x])
  {
    hide Slot;
    var mem' := mem[Slot(l, q, k) := x];
    forall i | 0 <= i < |ks|
      ensures FreeAt(l, p, ks, mem', i)
    {
      assert FreeAt(l, p, ks, mem, i);
      SlotUnique(l, p, ks[i], q, k);
    }
    forall j: nat
      ensures TakenAt(l, p, ks, mem', j)
    {
      assert TakenAt(l, p, ks, mem, j);
      if j < l.count { SlotUnique(l, p, j, q, k); }
    }
  }

  // ----- A cache

  /** The links and counters of the slabs of a cache. */
  datatype Fields = Fields(empty: nat, partial: nat, full: nat, next: Link, prev: Link, used: Link, head: Link,
                           base: Link, mem: Link)

  ghost predicate SlabOk(l: Layout, f: Fields, p: nat, ks: seq<nat>) {
    && p != 0 && p % PAGE_SIZE == 0 && Get(f.used, p) + |ks| == l.count && (!Direct(l) ==> Get(f.base, p) != 0)
    && FreeOk(l, p, ks, Get(f.head, p), f.mem)
  }

  /** Large objects of different slabs are in different memory. */
  ghost predicate BasesApart(l: Layout, f: Fields, p: nat, q: nat) {
    Get(f.base, p) + l.count * l.truesize <= Get(f.base, q) || Get(f.base, q) + l.count * l.truesize <= Get(f.base, p)
  }

  ghost predicate ListsOk(f: Fields, a: Lists) {
    && Chain(a.empty, f.empty, f.next, f.prev) && Chain(a.partial, f.partial, f.next, f.prev)
    && Chain(a.full, f.full, f.next, f.prev)
    && Apart(a.empty, a.partial) && Apart(a.empty, a.full) && Apart(a.partial, a.full)
    && forall p :: p in a.free <==> p in a.empty || p in a.partial || p in a.full
  }

  ghost predicate SlabsOk(l: Layout, f: Fields, a: Lists) {
    && (forall p :: p in a.free ==> SlabOk(l, f, p, a.free[p]))
    && (!Direct(l) ==> forall p, q :: p in a.free && q in a.free && p != q ==> BasesApart(l, f, p, q))
  }

  ghost predicate CacheOk(l: Layout, f: Fields, a: Lists) {
    LayoutOk(l) && ListsOk(f, a) && SlabsOk(l, f, a)
  }

  /** A slab is on the list that its number of free objects says. */
  ghost predicate Placed(l: Layout, a: Lists) {
    && (forall p :: p in a.empty ==> p in a.free && |a.free[p]| == l.count)
    && (forall p :: p in a.partial ==> p in a.free && 0 < |a.free[p]| < l.count)
    && (forall p :: p in a.full ==> p in a.free && a.free[p] == [])
  }

  /** An object that has been handed out. */
  ghost predicate Live(l: Layout, a: Lists, p: nat, k: nat) {
    p in a.free && k < l.count && k !in a.free[p]
  }

  /** Live objects are inside their slab and disjoint. */
  lemma LiveApart(l: Layout, f: Fields, a: Lists, p: nat, j: nat, q: nat, k: nat)
    requires CacheOk(l, f, a) && Live(l, a, p, j) && Live(l, a, q, k) && (p != q || j != k)
    ensures var x, y := Object(l, p, Get(f.base, p), j), Object(l, q, Get(f.base, q), k);
            x + l.size <= y || y + l.size <= x
  {
    hide Object, Slot, FreeOk, ListsOk;
    assert SlabOk(l, f, p, a.free[p]) && SlabOk(l, f, q, a.free[q]);
    ObjectInSlab(l, p, Get(f.base, p), j);
    ObjectInSlab(l, q, Get(f.base, q), k);
    if p == q {
      if j < k { ObjectsApart(l, p, Get(f.base, p), j, k); } else { ObjectsApart(l, p, Get(f.base, p), k, j); }
    } else if !Direct(l) {
      assert BasesApart(l, f, p, q);
    }
  }

  // ----- What allocation and freeing do to the lists

  datatype Choice = None | Some(page: nat, k: nat)

  ghost function Took(a: Lists, p: nat): (a': Lists)
    requires p in a.free
  {
    if a.free[p] == [] then a else a.(free := a.free[p := a.free[p][1..]])
  }

  /** The move at the end of slab_allocate. */
  ghost function Settled(l: Layout, a: Lists, p: nat): (a': Lists) {
    if p == First(a.empty) && a.empty != [] then a.(empty := a.empty[1..], partial := [p] + a.partial)
    else if p in a.free && a.free[p] == [] && a.partial != [] then a.(partial := a.partial[1..], full := [p] + a.full)
    else a
  }

  /** slab_allocate on lists with a slab to take from. */
  ghost function Allocated(l: Layout, a: Lists): (r: (Lists, Choice))
  {
    var p := if a.partial != [] then a.partial[0] else First(a.empty);
    if p !in a.free then (a, None) else
    (Settled(l, Took(a, p), p), if a.free[p] == [] then None else Some(p, a.free[p][0]))
  }

  /** A new slab, all of whose objects are free, the last one first. */
  function AllFree(n: nat): (ks: seq<nat>)
    ensures |ks| == n && forall i :: 0 <= i < n ==> ks[i] == n - 1 - i
  {
    if n == 0 then [] else [n - 1] + AllFree(n - 1)
  }

  ghost function Grown(l: Layout, a: Lists, p: nat): (a': Lists) {
    a.(empty := [p] + a.empty, free := a.free[p := AllFree(l.count)])
  }

  /** slab_free of object k of slab p. */
  ghost function Freed(l: Layout, a: Lists, p: nat, k: nat): (a': Lists)
    requires p in a.free
  {
    var a1 := a.(free := a.free[p := [k] + a.free[p]]);
    if |a.free[p]| + 1 == l.count then a1.(partial := Without(a.partial, p), empty := [p] + a.empty)
    else if a.free[p] == [] then a1.(full := Without(a.full, p), partial := [p] + a.partial)
    else a1
  }

  ghost predicate Separate(a: Lists) {
    && Distinct(a.empty) && Distinct(a.partial) && Distinct(a.full)
    && Apart(a.empty, a.partial) && Apart(a.empty, a.full) && Apart(a.partial, a.full)
    && (forall p :: p in a.free <==> p in a.empty || p in a.partial || p in a.full)
    && (forall p :: p in a.free ==> Distinct(a.free[p]))
  }

  lemma TailMembers(q: seq<nat>)
    requires q != [] && Distinct(q)
    ensures forall t :: t in q[1..] <==> t in q && t != q[0]
    ensures Distinct(q[1..])
  {
    assert q == [q[0]] + q[1..] && q[..0] + q[1..] == q[1..];
    StillIn(q, 0);
  }

  /** With two objects or more in a slab, allocation keeps every slab on its list, and fails only
      where there is no slab to take from. */
  lemma AllocatedPlaced(l: Layout, a: Lists)
    requires Separate(a) && Placed(l, a) && 2 <= l.count && (a.partial != [] || a.empty != [])
    ensures Placed(l, Allocated(l, a).0) && Allocated(l, a).1.Some?
  {
    hide Distinct;
    var p := if a.partial != [] then a.partial[0] else a.empty[0];
    assert p in a.free && a.free[p] != [];
    if a.partial != [] { TailMembers(a.partial); } else { TailMembers(a.empty); }
  }

  /** Allocation makes exactly one object live, which was not. */
  lemma AllocatedLive(l: Layout, a: Lists, p: nat, k: nat)
    requires Separate(a) && Allocated(l, a).1.Some?
    ensures var (a', c) := Allocated(l, a);
            && !Live(l, a, c.page, c.k)
            && (Live(l, a', p, k) <==> Live(l, a, p, k) || (p == c.page && k == c.k && k < l.count))
  {
    var q := if a.partial != [] then a.partial[0] else First(a.empty);
    TailMembers(a.free[q]);
  }

  /** An allocation from an empty slab leaves it on the partial list. That is the right list exactly
      if a slab has two objects or more. */
  lemma PlacedExact(l: Layout, a: Lists)
    requires Separate(a) && Placed(l, a) && a.partial == [] && a.empty != []
    ensures Placed(l, Allocated(l, a).0) <==> 2 <= l.count
  {
    var p := a.empty[0];
    assert p in a.free && |a.free[p]| == l.count;
    if 2 <= l.count {
      AllocatedPlaced(l, a);
    } else {
      assert p in Allocated(l, a).0.partial && Allocated(l, a).0.free[p] == [];
    }
  }

  /** With one object in a slab, every second allocation fails although the cache could grow: a slab
      without a free object is found on the partial list. */
  lemma SingleObjectFails(l: Layout, p: nat)
    requires l.count == 1
    ensures var a := Grown(l, Lists([], [], [], map[]), p);
            var a' := Allocated(l, a).0;
            && Allocated(l, a).1 == Some(p, 0) && a'.partial == [p] && Allocated(l, a').1 == None
  {
    assert AllFree(1) == [0];
  }

  /** With no room for an object in a slab, the first allocation fails after the cache has grown. A
      small object with the alignment of a page is such a case. */
  lemma NoObjectFails(l: Layout, p: nat)
    requires l.count == 0
    ensures Allocated(l, Grown(l, Lists([], [], [], map[]), p)).1 == None
    ensures LayoutFor(8, 4096).count == 0
  {}

  lemma FreedPlaced(l: Layout, a: Lists, p: nat, k: nat)
    requires Separate(a) && Placed(l, a) && 2 <= l.count && Live(l, a, p, k) && |a.free[p]| < l.count
    ensures Placed(l, Freed(l, a, p, k))
    ensures p in a.partial || p in a.full
  {
    hide Distinct;
    WithoutMembers(a.partial, p);
    WithoutMembers(a.full, p);
  }

  lemma FreedLive(l: Layout, a: Lists, p: nat, k: nat, q: nat, j: nat)
    requires Live(l, a, p, k)
    ensures Live(l, Freed(l, a, p, k), q, j) <==> Live(l, a, q, j) && !(q == p && j == k)
  {}

  lemma WithoutMembers(q: seq<nat>, t: nat)
    requires Distinct(q)
    ensures forall u :: u in Without(q, t) <==> u in q && u != t
  {
    if t in q {
      var k :| 0 <= k < |q| && q[k] == t;
      WithoutAt(q, k);
      StillIn(q, k);
    }
  }

  // ----- The operations

  /** The assignments that take a slab off the list that starts at from and put it at the front of the
      list that starts at dest: the two heads and the links afterwards. */
  function Relink(from: nat, dest: nat, next: Link, prev: Link, p: nat): (r: (nat, nat, Link, Link)) {
    var n, b := Get(next, p), Get(prev, p);
    var next1 := if b == 0 then next else next[b := n];
    var prev1 := (if n == 0 then prev else prev[n := b])[p := 0];
    (if b == 0 then n else from, p, next1[p := dest], if dest == 0 then prev1 else prev1[dest := p])
  }

  /** They move it if it is on the first list; the third list is left alone. */
  lemma RelinkChains(from: nat, dest: nat, third: nat, next: Link, prev: Link, p: nat, q: seq<nat>, k: nat, r: seq<nat>,
                     o: seq<nat>)
    requires Chain(q, from, next, prev) && Chain(r, dest, next, prev) && Chain(o, third, next, prev)
    requires Apart(q, r) && Apart(q, o) && Apart(r, o) && k < |q| && q[k] == p
    ensures var (from', dest', next', prev') := Relink(from, dest, next, prev, p);
            && Chain(Without(q, p), from', next', prev')
            && Chain([p] + r, dest', next', prev') && Chain(o, third, next', prev')
            && Apart(Without(q, p), [p] + r) && Apart(Without(q, p), o) && Apart([p] + r, o)
  {
    hide LinkedAt, Relink, Distinct;
    WithoutAt(q, k);
    assert p in q;
    var n, b := Get(next, p), Get(prev, p);
    var n1: Link := (if b != 0 then next[b := n] else next)[p := 0];
    var p1: Link := (if n != 0 then prev[n := b] else prev)[p := 0];
    RemoveChain(q, from, next, prev, k, if b != 0 then from else n, n1, p1);
    ChainFrame(r, dest, next, prev, n1, p1);
    ChainFrame(o, third, next, prev, n1, p1);
    RelinkInserts(from, dest, next, prev, p, n1, p1);
    var (from', dest', next', prev') := Relink(from, dest, next, prev, p);
    RelinkApart(q, k, r, o, dest, n1, p1);
    InsertChain(r, dest, n1, p1, p, next', prev');
    ChainFrame(Without(q, p), from', n1, p1, next', prev');
    ChainFrame(o, third, n1, p1, next', prev');
  }

  /** The second half is a push to the front after the removal. */
  lemma RelinkInserts(from: nat, dest: nat, next: Link, prev: Link, p: nat, n1: Link, p1: Link)
    requires n1 == (if Get(prev, p) != 0 then next[Get(prev, p) := Get(next, p)] else next)[p := 0]
    requires p1 == (if Get(next, p) != 0 then prev[Get(next, p) := Get(prev, p)] else prev)[p := 0]
    ensures var r := Relink(from, dest, next, prev, p);
            && r.0 == (if Get(prev, p) != 0 then from else Get(next, p)) && r.1 == p && r.2 == n1[p := dest]
            && r.3 == if dest != 0 then p1[p := 0][dest := p] else p1[p := 0]
  {}

  lemma RelinkApart(q: seq<nat>, k: nat, r: seq<nat>, o: seq<nat>, dest: nat, next: Link, prev: Link)
    requires Distinct(q) && k < |q| && Apart(q, r) && Apart(q, o) && Apart(r, o) && Chain(r, dest, next, prev)
    ensures q[k] in q && q[k] !in r && q[k] !in o && Without(q, q[k]) == q[..k] + q[k + 1..]
    ensures forall t :: t in Without(q, q[k]) ==> t != q[k] && t !in r && t !in o
    ensures dest != 0 ==> dest in r
    ensures Apart(Without(q, q[k]), [q[k]] + r) && Apart([q[k]] + r, o)
  {
    WithoutAt(q, k);
    StillIn(q, k);
  }

  /** takeobject. Zero stands for NULL. */
  method TakeObject(l: Layout, f: Fields, p: nat, ghost a: Lists) returns (f': Fields, x: nat)
    requires CacheOk(l, f, a) && p in a.free
    ensures CacheOk(l, f', Took(a, p)) && SameHeads(f, f') && f'.base == f.base
    ensures Get(f'.used, p) + |Took(a, p).free[p]| == l.count
    ensures x == if a.free[p] == [] then 0 else Object(l, p, Get(f.base, p), a.free[p][0])
    ensures x == 0 <==> a.free[p] == []
  {
    hide Slot, Object, FreeOk, ListsOk, LayoutOk;
    assert SlabOk(l, f, p, a.free[p]);
    HeadSlot(l, p, a.free[p], Get(f.head, p), f.mem, Get(f.base, p));
    f' := f;
    var link := Get(f.head, p);
    if link == 0 {
      return f, 0;
    }
    f' := f'.(head := f.head[p := Get(f.mem, link)]);
    f' := f'.(used := f.used[p := Get(f.used, p) + 1]);
    f' := f'.(mem := f.mem[link := 0]);
    TookSlabs(l, f, a, p, f');
    TookLists(f, f', a, p);
    x := ObjectOf(l, p, Get(f.base, p), link);
  }

  ghost predicate SameHeads(f: Fields, f': Fields) {
    f'.empty == f.empty && f'.partial == f.partial && f'.full == f.full && f'.next == f.next && f'.prev == f.prev
  }

  lemma HeadSlot(l: Layout, p: nat, ks: seq<nat>, head: nat, mem: Link, b: nat)
    requires LayoutOk(l) && p != 0 && p % PAGE_SIZE == 0 && FreeOk(l, p, ks, head, mem) && (!Direct(l) ==> b != 0)
    ensures head == 0 <==> ks == []
    ensures ks != [] ==> ks[0] < l.count && head == Slot(l, p, ks[0]) && (!Direct(l) ==> p <= head)
                         && ObjectOf(l, p, b, head) == Object(l, p, b, ks[0]) && Object(l, p, b, ks[0]) != 0
  {
    if ks != [] {
      assert FreeAt(l, p, ks, mem, 0);
      SlotInPage(l, p, ks[0]);
      SlotRoundTrip(l, p, b, ks[0]);
      ObjectInSlab(l, p, b, ks[0]);
    }
  }

  lemma TookLists(f: Fields, f': Fields, a: Lists, p: nat)
    requires ListsOk(f, a) && SameHeads(f, f') && p in a.free
    ensures ListsOk(f', Took(a, p))
  {}

  lemma TookSlabs(l: Layout, f: Fields, a: Lists, p: nat, f': Fields)
    requires LayoutOk(l) && SlabsOk(l, f, a) && p in a.free && a.free[p] != []
    requires a.free[p][0] < l.count && Get(f.head, p) == Slot(l, p, a.free[p][0])
    requires f'.head == f.head[p := Get(f.mem, Get(f.head, p))] && f'.used == f.used[p := Get(f.used, p) + 1]
    requires f'.mem == f.mem[Get(f.head, p) := 0] && f'.base == f.base
    ensures SlabsOk(l, f', Took(a, p))
  {
    hide Slot, FreeOk, LayoutOk;
    assert SlabOk(l, f, p, a.free[p]);
    TakeFree(l, p, a.free[p], Get(f.head, p), f.mem);
    forall q | q in a.free && q != p
      ensures SlabOk(l, f', q, a.free[q])
    {
      assert SlabOk(l, f, q, a.free[q]);
      OtherFree(l, q, a.free[q], Get(f.head, q), f.mem, p, a.free[p][0], 0);
    }
    BasesKept(l, f, f', a, Took(a, p));
  }

  lemma BasesKept(l: Layout, f: Fields, f': Fields, a: Lists, a': Lists)
    requires SlabsOk(l, f, a) && f'.base == f.base && a'.free.Keys == a.free.Keys
    ensures !Direct(l) ==> forall p, q :: p in a'.free && q in a'.free && p != q ==> BasesApart(l, f', p, q)
  {
    hide SlabOk;
    if !Direct(l) {
      forall p, q | p in a'.free && q in a'.free && p != q
        ensures BasesApart(l, f', p, q)
      {
        assert p in a.free && q in a.free && BasesApart(l, f, p, q);
      }
    }
  }

  // ----- A new slab

  /** The links of the first k objects of a new slab. */
  ghost predicate Building(l: Layout, p: nat, k: nat, head: nat, mem: Link) {
    head == FirstSlot(l, p, AllFree(k)) && forall i :: 0 <= i < k ==> FreeAt(l, p, AllFree(k), mem, i)
  }

  ghost predicate SameOutside(mem: Link, mem': Link, p: nat) {
    forall x: nat :: !(p <= x < p + DATA_SIZE) ==> Get(mem', x) == Get(mem, x)
  }

  lemma BuildStep(l: Layout, p: nat, k: nat, head: nat, mem: Link)
    requires LayoutOk(l) && p % PAGE_SIZE == 0 && k < l.count && Building(l, p, k, head, mem)
    ensures Building(l, p, k + 1, Slot(l, p, k), mem[Slot(l, p, k) := head])
  {
    hide Slot;
    var ks, ks', mem' := AllFree(k), AllFree(k + 1), mem[Slot(l, p, k) := head];
    assert ks' == [k] + ks && ks'[1..] == ks;
    forall i | 0 <= i < k + 1
      ensures FreeAt(l, p, ks', mem', i)
    {
      if 0 < i {
        assert FreeAt(l, p, ks, mem, i - 1) && ks'[i + 1..] == ks[i..];
        SlotUnique(l, p, ks[i - 1], p, k);
      }
    }
  }

  lemma BuildDone(l: Layout, p: nat, head: nat, mem: Link)
    requires Building(l, p, l.count, head, mem)
    ensures FreeOk(l, p, AllFree(l.count), head, mem)
  {
    var ks := AllFree(l.count);
    forall k | 0 <= k < l.count
      ensures k in ks
    {
      assert ks[l.count - 1 - k] == k;
    }
  }

  lemma FreeOutside(l: Layout, q: nat, ks: seq<nat>, head: nat, mem: Link, mem': Link, p: nat)
    requires LayoutOk(l) && p % PAGE_SIZE == 0 && q % PAGE_SIZE == 0 && p != q
    requires FreeOk(l, q, ks, head, mem) && SameOutside(mem, mem', p)
    ensures FreeOk(l, q, ks, head, mem')
  {
    hide Slot;
    forall i | 0 <= i < |ks|
      ensures FreeAt(l, q, ks, mem', i)
    {
      assert FreeAt(l, q, ks, mem, i);
      SlotInPage(l, q, ks[i]);
    }
    forall j: nat
      ensures TakenAt(l, q, ks, mem', j)
    {
      assert TakenAt(l, q, ks, mem, j);
      if j < l.count { SlotInPage(l, q, j); }
    }
  }

  /** initdirect and initindirect: every object goes to the front of the free list. */
  method InitFreeList(l: Layout, p: nat, mem: Link) returns (head: nat, mem': Link)
    requires LayoutOk(l) && p % PAGE_SIZE == 0
    ensures FreeOk(l, p, AllFree(l.count), head, mem') && SameOutside(mem, mem', p)
  {
    hide Building, LayoutOk, Slot, FreeOk;
    head, mem' := 0, mem;
    var k := 0;
    BuildStart(l, p, mem);
    while k < l.count
      invariant k <= l.count && Building(l, p, k, head, mem') && SameOutside(mem, mem', p)
    {
      BuildStep(l, p, k, head, mem');
      SlotInPage(l, p, k);
      mem' := mem'[Slot(l, p, k) := head];
      head := Slot(l, p, k);
      k := k + 1;
    }
    BuildDone(l, p, head, mem');
  }

  lemma BuildStart(l: Layout, p: nat, mem: Link)
    ensures Building(l, p, 0, 0, mem)
  {}

  /** A page, and memory for large objects, that the cache does not have yet. */
  ghost predicate NewPage(l: Layout, f: Fields, a: Lists, p: nat, b: nat) {
    && p != 0 && p % PAGE_SIZE == 0 && p !in a.free
    && (!Direct(l) ==> b != 0 && forall q :: q in a.free ==>
          b + l.count * l.truesize <= Get(f.base, q) || Get(f.base, q) + l.count * l.truesize <= b)
  }

  /** growcache, where memory could be mapped. */
  method Grow(l: Layout, f: Fields, p: nat, b: nat, ghost a: Lists) returns (f': Fields)
    requires CacheOk(l, f, a) && NewPage(l, f, a, p, b)
    ensures CacheOk(l, f', Grown(l, a, p)) && f'.empty == p && f'.partial == f.partial && f'.full == f.full
  {
    hide LayoutOk, FreeOk, SlabsOk, LinkedAt;
    var head, mem := InitFreeList(l, p, f.mem);
    var empty, next, prev := PushFront(f.empty, f.next, f.prev, p, a.empty);
    ChainFrame(a.partial, f.partial, f.next, f.prev, next, prev);
    ChainFrame(a.full, f.full, f.next, f.prev, next, prev);
    f' := Fields(empty, f.partial, f.full, next, prev, f.used[p := 0], f.head[p := head], f.base[p := b], mem);
    GrownSlabs(l, f, a, p, b, f');
  }

  lemma GrownSlabs(l: Layout, f: Fields, a: Lists, p: nat, b: nat, f': Fields)
    requires LayoutOk(l) && SlabsOk(l, f, a) && NewPage(l, f, a, p, b) && SameOutside(f.mem, f'.mem, p)
    requires f'.used == f.used[p := 0] && f'.base == f.base[p := b]
    requires (exists head :: f'.head == f.head[p := head] && FreeOk(l, p, AllFree(l.count), head, f'.mem))
    ensures SlabsOk(l, f', Grown(l, a, p))
  {
    hide LayoutOk, FreeOk;
    var a' := Grown(l, a, p);
    forall q | q in a'.free
      ensures SlabOk(l, f', q, a'.free[q])
    {
      if q != p {
        assert SlabOk(l, f, q, a.free[q]);
        FreeOutside(l, q, a.free[q], Get(f.head, q), f.mem, f'.mem, p);
      }
    }
    if !Direct(l) {
      forall q, r | q in a'.free && r in a'.free && q != r
        ensures BasesApart(l, f', q, r)
      {
        assert q != p && r != p ==> BasesApart(l, f, q, r);
      }
    }
  }

  // ----- Allocation

  /** slab_allocate, given whether memory for a new slab could be mapped, and where. */
  method AllocateIn(l: Layout, f: Fields, canGrow: bool, page: nat, base: nat,
                    ghost a: Lists) returns (f': Fields, x: nat)
    requires CacheOk(l, f, a) && (canGrow ==> NewPage(l, f, a, page, base))
    ensures var (a', c) := Allocated(l, Before(l, a, canGrow, page));
            && CacheOk(l, f', a') && (x == 0 <==> c.None?)
            && (c.Some? ==> x == Object(l, c.page, Get(f'.base, c.page), c.k))
  {
    hide SlabsOk, LayoutOk, Chain, Apart, Object;
    HeadsTell(f, a);
    f', x := f, 0;
    ghost var a1 := a;
    var slab := if f.partial != 0 then f.partial else f.empty;
    if slab == 0 {
      if !canGrow {
        NoSlab(l, f, a);
        return f, 0;
      }
      f' := Grow(l, f, page, base, a);
      a1 := Grown(l, a, page);
      slab := f'.empty;
    }
    HeadsTell(f', a1);
    f', x := TakeObject(l, f', slab, a1);
    f' := Settle(l, f', slab, Took(a1, slab));
  }

  lemma HeadsTell(f: Fields, a: Lists)
    requires ListsOk(f, a)
    ensures f.empty == First(a.empty) && f.partial == First(a.partial) && f.full == First(a.full)
    ensures (f.empty == 0 <==> a.empty == []) && (f.partial == 0 <==> a.partial == []) && 0 !in a.free
    ensures a.empty != [] ==> f.empty in a.free
    ensures a.partial != [] ==> f.partial in a.free && f.partial != f.empty
  {
    assert a.empty != [] ==> a.empty[0] in a.empty;
    assert a.partial != [] ==> a.partial[0] in a.partial;
  }

  lemma NoSlab(l: Layout, f: Fields, a: Lists)
    requires ListsOk(f, a) && a.empty == [] && a.partial == []
    ensures Allocated(l, a) == (a, None)
  {
    HeadsTell(f, a);
  }

  lemma WithoutFirst(q: seq<nat>)
    requires q != []
    ensures Without(q, q[0]) == q[1..]
  {}

  lemma ApartSwap(p: seq<nat>, q: seq<nat>)
    requires Apart(p, q)
    ensures Apart(q, p)
  {}

  /** A move between lists concerns neither the free lists nor the counters. */
  lemma SameSlabs(l: Layout, f: Fields, f': Fields, a: Lists, a': Lists)
    requires SlabsOk(l, f, a) && f'.used == f.used && f'.head == f.head
    requires f'.base == f.base && f'.mem == f.mem && a'.free == a.free
    ensures SlabsOk(l, f', a')
  {
    hide FreeOk;
    forall p | p in a.free
      ensures SlabOk(l, f', p, a.free[p])
    {
      assert SlabOk(l, f, p, a.free[p]);
    }
    BasesKept(l, f, f', a, a');
  }

  /** The move at the end of slab_allocate. */
  method Settle(l: Layout, f: Fields, slab: nat, ghost a: Lists) returns (f': Fields)
    requires CacheOk(l, f, a) && slab in a.free && slab != 0 && slab == (if a.partial != [] then f.partial else f.empty)
    ensures CacheOk(l, f', Settled(l, a, slab)) && f'.base == f.base
  {
    hide LayoutOk, SlabsOk, LinkedAt, Without, Chain, Apart;
    HeadsTell(f, a);
    CounterTells(l, f, a, slab);
    f' := f;
    if slab == f.empty {
      RelinkChains(f.empty, f.partial, f.full, f.next, f.prev, slab, a.empty, 0, a.partial, a.full);
      WithoutFirst(a.empty);
      var r := Relink(f.empty, f.partial, f.next, f.prev, slab);
      f' := f.(empty := r.0, partial := r.1, next := r.2, prev := r.3);
      HeadMoved(a.empty, a.partial);
      SameSlabs(l, f, f', a, Settled(l, a, slab));
    } else if Get(f.used, slab) == l.count {
      ApartSwap(a.empty, a.partial);
      ApartSwap(a.empty, a.full);
      RelinkChains(f.partial, f.full, f.empty, f.next, f.prev, slab, a.partial, 0, a.full, a.empty);
      var r := Relink(f.partial, f.full, f.next, f.prev, slab);
      WithoutFirst(a.partial);
      ApartSwap(a.partial[1..], a.empty);
      ApartSwap([slab] + a.full, a.empty);
      f' := f.(partial := r.0, full := r.1, next := r.2, prev := r.3);
      HeadMoved(a.partial, a.full);
      SameSlabs(l, f, f', a, Settled(l, a, slab));
    }
  }

  lemma CounterTells(l: Layout, f: Fields, a: Lists, p: nat)
    requires SlabsOk(l, f, a) && p in a.free
    ensures Get(f.used, p) == l.count <==> a.free[p] == []
  {
    assert SlabOk(l, f, p, a.free[p]);
  }

  lemma HeadMoved(q: seq<nat>, r: seq<nat>)
    requires q != []
    ensures forall t :: t in q || t in r <==> t in q[1..] || t in [q[0]] + r
  {
    assert q == [q[0]] + q[1..];
  }

  // ----- Freeing

  /** The slab of a live object: by its address, or by a search of the full and the partial list. */
  method FindSlab(l: Layout, f: Fields, x: nat, ghost a: Lists, ghost p: nat, ghost k: nat) returns (slab: nat)
    requires CacheOk(l, f, a) && Live(l, a, p, k)
    requires x == Object(l, p, Get(f.base, p), k) && (p in a.full || p in a.partial)
    ensures slab == p
  {
    hide ListsOk, SlabsOk, Object, LayoutOk, InMemory;
    ObjectPlace(l, f, a, p, k);
    if Direct(l) {
      return x / PAGE_SIZE * PAGE_SIZE;
    }
    ghost var all := a.full + a.partial;
    ghost var i := 0;
    SearchStart(f, a);
    var partial := f.full == 0;
    slab := if partial then f.partial else f.full;
    while slab != 0 && !InMemory(l, f, slab, x)
      invariant i <= |all| && slab == First(all[i..]) && (partial <==> |a.full| <= i) && p in all[i..]
      decreases |all| - i
    {
      SearchStep(f, a, i, p, slab);
      if Get(f.next, slab) == 0 && !partial {
        slab := f.partial;
        partial := true;
      } else {
        slab := Get(f.next, slab);
      }
      i := i + 1;
    }
    SearchEnd(l, f, a, i, p, slab, x);
  }

  /** The test of returnobject for a slab of large objects. */
  predicate InMemory(l: Layout, f: Fields, p: nat, x: nat) {
    Get(f.base, p) <= x < Get(f.base, p) + l.count * l.truesize
  }

  lemma ObjectPlace(l: Layout, f: Fields, a: Lists, p: nat, k: nat)
    requires LayoutOk(l) && SlabsOk(l, f, a) && Live(l, a, p, k)
    ensures Direct(l) ==> Object(l, p, Get(f.base, p), k) / PAGE_SIZE * PAGE_SIZE == p
    ensures !Direct(l) ==> InMemory(l, f, p, Object(l, p, Get(f.base, p), k))
  {
    hide FreeOk, Object;
    assert SlabOk(l, f, p, a.free[p]);
    if Direct(l) { PageOfObject(l, p, Get(f.base, p), k); } else { ObjectInSlab(l, p, Get(f.base, p), k); }
    Truesize(l);
  }

  lemma SearchStart(f: Fields, a: Lists)
    requires ListsOk(f, a)
    ensures var all := a.full + a.partial;
            && all[0..] == all && (if f.full == 0 then f.partial else f.full) == First(all)
            && (f.full == 0 <==> a.full == [])
  {
    assert a.full != [] ==> a.full[0] in a.full;
  }

  lemma SearchStep(f: Fields, a: Lists, i: nat, p: nat, slab: nat)
    requires ListsOk(f, a) && i <= |a.full + a.partial| && slab == First((a.full + a.partial)[i..]) && slab != 0
    ensures i < |a.full + a.partial|
    ensures var rest := (a.full + a.partial)[i + 1..];
            && First(rest) == (if Get(f.next, slab) == 0 && i < |a.full| then f.partial else Get(f.next, slab))
            && (i < |a.full| ==> (Get(f.next, slab) == 0 <==> i + 1 == |a.full|))
            && (p in (a.full + a.partial)[i..] && p != slab ==> p in rest)
  {
    var all := a.full + a.partial;
    assert all[i..] == [all[i]] + all[i + 1..];
    if i < |a.full| {
      assert LinkedAt(a.full, f.next, f.prev, i);
      assert i + 1 < |a.full| ==> a.full[i + 1] in a.full;
    } else {
      assert LinkedAt(a.partial, f.next, f.prev, i - |a.full|);
    }
  }

  lemma SearchEnd(l: Layout, f: Fields, a: Lists, i: nat, p: nat, slab: nat, x: nat)
    requires ListsOk(f, a) && SlabsOk(l, f, a) && i <= |a.full + a.partial|
    requires slab == First((a.full + a.partial)[i..]) && p in (a.full + a.partial)[i..]
    requires !Direct(l) && InMemory(l, f, p, x) && (slab == 0 || InMemory(l, f, slab, x))
    ensures slab == p
  {
    hide SlabOk;
    var all := a.full + a.partial;
    assert all[i..][0] == all[i] && all[i] in all && p in all;
    assert all[i] in a.full || all[i] in a.partial;
    assert slab != p ==> BasesApart(l, f, slab, p);
  }

  /** returnobject: the object goes to the front of the free list of its slab. */
  method ReturnObject(l: Layout, f: Fields, x: nat, ghost a: Lists, ghost p: nat,
                      ghost k: nat) returns (f': Fields, slab: nat)
    requires CacheOk(l, f, a) && Live(l, a, p, k)
    requires x == Object(l, p, Get(f.base, p), k) && (p in a.full || p in a.partial)
    ensures slab == p && SameHeads(f, f') && f'.base == f.base
    ensures CacheOk(l, f', a.(free := a.free[p := [k] + a.free[p]])) && Get(f'.used, p) == l.count - |a.free[p]| - 1
  {
    hide FreeOk, Slot, Object, Chain, LayoutOk, Apart;
    slab := FindSlab(l, f, x, a, p, k);
    assert SlabOk(l, f, p, a.free[p]);
    LiveCount(l, f, a, p, k);
    SlotRoundTrip(l, p, Get(f.base, p), k);
    ObjectInSlab(l, p, Get(f.base, p), k);
    Truesize(l);
    var link := SlotOf(l, slab, Get(f.base, slab), x);
    LinkIsNull(l, p, a.free[p], Get(f.head, p), f.mem, k);
    assert Get(f.mem, link) == 0;
    f' := f.(mem := f.mem[link := Get(f.head, slab)]);
    f' := f'.(head := f.head[slab := link]);
    f' := f'.(used := f.used[slab := Get(f.used, slab) - 1]);
    ReturnSlabs(l, f, a, p, k, f');
  }

  lemma Truesize(l: Layout)
    requires LayoutOk(l)
    ensures 0 < l.truesize
  {}

  /** The assertion of returnobject: the link of a live object is NULL. */
  lemma LinkIsNull(l: Layout, p: nat, ks: seq<nat>, head: nat, mem: Link, k: nat)
    requires FreeOk(l, p, ks, head, mem) && k < l.count && k !in ks
    ensures Get(mem, Slot(l, p, k)) == 0
  {
    assert TakenAt(l, p, ks, mem, k);
  }

  lemma {:induction false} DistinctBelow(ks: seq<nat>, n: nat)
    requires Distinct(ks) && forall i :: 0 <= i < |ks| ==> ks[i] < n
    ensures |ks| <= n
  {
    if ks != [] {
      assert ks[0] < n;
      if n - 1 in ks {
        var i :| 0 <= i < |ks| && ks[i] == n - 1;
        StillIn(ks, i);
        var rest := ks[..i] + ks[i + 1..];
        assert forall j :: 0 <= j < |rest| ==> rest[j] in rest;
        DistinctBelow(rest, n - 1);
      } else {
        assert forall i :: 0 <= i < |ks| ==> ks[i] in ks;
        DistinctBelow(ks, n - 1);
      }
    }
  }

  /** A slab with a live object has fewer free objects than objects. */
  lemma LiveCount(l: Layout, f: Fields, a: Lists, p: nat, k: nat)
    requires SlabsOk(l, f, a) && Live(l, a, p, k)
    ensures |a.free[p]| < l.count
  {
    hide Slot;
    assert SlabOk(l, f, p, a.free[p]);
    var ks := a.free[p];
    var more := [k] + ks;
    forall i | 0 <= i < |more|
      ensures more[i] < l.count && (0 < i ==> more[i] in ks)
    {
      if 0 < i { assert FreeAt(l, p, ks, f.mem, i - 1); }
    }
    DistinctBelow(more, l.count);
  }

  lemma ReturnSlabs(l: Layout, f: Fields, a: Lists, p: nat, k: nat, f': Fields)
    requires LayoutOk(l) && SlabsOk(l, f, a) && Live(l, a, p, k) && 0 < Get(f.used, p)
    requires f'.mem == f.mem[Slot(l, p, k) := Get(f.head, p)] && f'.head == f.head[p := Slot(l, p, k)]
    requires f'.used == f.used[p := Get(f.used, p) - 1] && f'.base == f.base
    ensures SlabsOk(l, f', a.(free := a.free[p := [k] + a.free[p]]))
  {
    hide Slot, FreeOk, LayoutOk;
    var a' := a.(free := a.free[p := [k] + a.free[p]]);
    assert SlabOk(l, f, p, a.free[p]);
    ReturnFree(l, p, a.free[p], Get(f.head, p), f.mem, k);
    forall q | q in a.free && q != p
      ensures SlabOk(l, f', q, a.free[q])
    {
      assert SlabOk(l, f, q, a.free[q]);
      OtherFree(l, q, a.free[q], Get(f.head, q), f.mem, p, k, Get(f.head, p));
    }
    BasesKept(l, f, f', a, a');
  }

  /** slab_free of a live object. Its two tests are for no object and for all but one being in use. With
      one object in a slab they are the same: the slab is put on the empty and on the partial list. */
  method FreeIn(l: Layout, f: Fields, x: nat, ghost a: Lists, ghost p: nat, ghost k: nat) returns (f': Fields)
    requires CacheOk(l, f, a) && Live(l, a, p, k) && (p in a.full || p in a.partial)
    requires x == Object(l, p, Get(f.base, p), k) && (2 <= l.count ==> Placed(l, a))
    ensures 2 <= l.count ==> CacheOk(l, f', Freed(l, a, p, k)) && f'.base == f.base
    ensures l.count == 1 ==> f'.empty == f'.partial == p != 0
  {
    hide SlabsOk, LayoutOk, LinkedAt, Chain, Apart, Object, Without, Relink;
    LiveCount(l, f, a, p, k);
    HeadsTell(f, a);
    var slab;
    f', slab := ReturnObject(l, f, x, a, p, k);
    RelinkHead(f', slab);
    if Get(f'.used, slab) == 0 {
      if 2 <= l.count {
        ToEmpty(l, f', a, p, k);
      }
      var r := Relink(f'.partial, f'.empty, f'.next, f'.prev, slab);
      f' := f'.(partial := r.0, empty := r.1, next := r.2, prev := r.3);
      RelinkHead(f', slab);
    }
    if Get(f'.used, slab) == l.count - 1 {
      if 2 <= l.count {
        ToPartial(l, f', a, p, k);
      }
      var r := Relink(f'.full, f'.partial, f'.next, f'.prev, slab);
      f' := f'.(full := r.0, partial := r.1, next := r.2, prev := r.3);
    }
  }

  lemma RelinkHead(f: Fields, p: nat)
    ensures Relink(f.partial, f.empty, f.next, f.prev, p).1 == p == Relink(f.full, f.partial, f.next, f.prev, p).1
  {}

  /** The first move of slab_free, from the partial to the empty list. */
  lemma ToEmpty(l: Layout, f: Fields, a: Lists, p: nat, k: nat)
    requires Placed(l, a) && 2 <= l.count && p in a.free && |a.free[p]| + 1 == l.count
    requires CacheOk(l, f, a.(free := a.free[p := [k] + a.free[p]]))
    ensures var r := Relink(f.partial, f.empty, f.next, f.prev, p);
            CacheOk(l, f.(partial := r.0, empty := r.1, next := r.2, prev := r.3), Freed(l, a, p, k))
  {
    hide SlabsOk, LayoutOk, LinkedAt, Chain, Apart, Without, Relink;
    var a1, r := a.(free := a.free[p := [k] + a.free[p]]), Relink(f.partial, f.empty, f.next, f.prev, p);
    OnList(l, a, p);
    var i :| 0 <= i < |a.partial| && a.partial[i] == p;
    ApartSwap(a.empty, a.partial);
    RelinkChains(f.partial, f.empty, f.full, f.next, f.prev, p, a.partial, i, a.empty, a.full);
    ApartSwap(Without(a.partial, p), [p] + a.empty);
    Moved(f.partial, f.next, f.prev, a.partial, a.empty, p);
    SameSlabs(l, f, f.(partial := r.0, empty := r.1, next := r.2, prev := r.3), a1, Freed(l, a, p, k));
  }

  /** The second one, from the full to the partial list. */
  lemma ToPartial(l: Layout, f: Fields, a: Lists, p: nat, k: nat)
    requires Placed(l, a) && 2 <= l.count && p in a.free && a.free[p] == []
    requires CacheOk(l, f, a.(free := a.free[p := [k] + a.free[p]]))
    ensures var r := Relink(f.full, f.partial, f.next, f.prev, p);
            CacheOk(l, f.(full := r.0, partial := r.1, next := r.2, prev := r.3), Freed(l, a, p, k))
  {
    hide SlabsOk, LayoutOk, LinkedAt, Chain, Apart, Without, Relink;
    var a1, r := a.(free := a.free[p := [k] + a.free[p]]), Relink(f.full, f.partial, f.next, f.prev, p);
    OnList(l, a, p);
    var i :| 0 <= i < |a.full| && a.full[i] == p;
    ApartSwap(a.partial, a.full);
    ApartSwap(a.empty, a.full);
    ApartSwap(a.empty, a.partial);
    RelinkChains(f.full, f.partial, f.empty, f.next, f.prev, p, a.full, i, a.partial, a.empty);
    ApartSwap(Without(a.full, p), [p] + a.partial);
    ApartSwap(Without(a.full, p), a.empty);
    ApartSwap([p] + a.partial, a.empty);
    Moved(f.full, f.next, f.prev, a.full, a.partial, p);
    SameSlabs(l, f, f.(full := r.0, partial := r.1, next := r.2, prev := r.3), a1, Freed(l, a, p, k));
  }

  /** A slab with a live object is full or partial, by the number of its free objects. */
  lemma OnList(l: Layout, a: Lists, p: nat)
    requires Placed(l, a) && p in a.free && |a.free[p]| < l.count && (p in a.empty || p in a.partial || p in a.full)
    ensures if a.free[p] == [] then p in a.full && p !in a.partial else p in a.partial && p !in a.full
  {}

  /** No lists are those of a cache whose empty and partial list start with the same slab. */
  lemma NoLists(f: Fields, a: Lists)
    requires f.empty == f.partial != 0
    ensures !ListsOk(f, a)
  {
    assert a.empty != [] ==> a.empty[0] in a.empty;
    assert a.partial != [] ==> a.partial[0] in a.partial;
  }

  lemma Moved(head: nat, next: Link, prev: Link, q: seq<nat>, r: seq<nat>, p: nat)
    requires Chain(q, head, next, prev) && p in q
    ensures forall t :: t in q || t in r <==> t in Without(q, p) || t in [p] + r
  {
    WithoutMembers(q, p);
  }

  // ----- The cache as an object

  lemma CacheSeparate(l: Layout, f: Fields, a: Lists)
    requires CacheOk(l, f, a)
    ensures Separate(a)
  {
    hide LinkedAt, LayoutOk;
    forall p | p in a.free
      ensures Distinct(a.free[p])
    {
      assert SlabOk(l, f, p, a.free[p]);
    }
  }

  lemma GrownLive(l: Layout, a: Lists, p: nat)
    requires p !in a.free
    ensures forall q, k: nat :: Live(l, Grown(l, a, p), q, k) <==> Live(l, a, q, k)
  {
    forall k: nat
      ensures !Live(l, Grown(l, a, p), p, k)
    {
      if k < l.count { assert AllFree(l.count)[l.count - 1 - k] == k; }
    }
  }

  lemma GrownPlaced(l: Layout, a: Lists, p: nat)
    requires Placed(l, a) && p !in a.free
    ensures Placed(l, Grown(l, a, p))
  {}

  /** The slabs on the empty list have no live object. */
  ghost predicate Empties(l: Layout, a: Lists) {
    forall p :: p in a.empty ==> p in a.free && |a.free[p]| == l.count
  }

  lemma AllocatedEmpties(l: Layout, a: Lists)
    requires Separate(a) && Empties(l, a)
    ensures Empties(l, Allocated(l, a).0)
  {
    hide Distinct;
    if a.empty != [] { TailMembers(a.empty); }
  }

  /** The lists that slab_allocate takes from. */
  ghost function Before(l: Layout, a: Lists, canGrow: bool, page: nat): (a': Lists) {
    if a.partial == [] && a.empty == [] && canGrow then Grown(l, a, page) else a
  }

  /** Exactly one object becomes live, or none. */
  lemma AllocationLive(l: Layout, f: Fields, a: Lists, canGrow: bool, page: nat)
    requires CacheOk(l, f, a) && (canGrow ==> page !in a.free)
    ensures var (a', c) := Allocated(l, Before(l, a, canGrow, page));
            && (c.Some? ==> !Live(l, a, c.page, c.k))
            && forall q, j: nat :: Live(l, a', q, j) <==> Live(l, a, q, j) || (c.Some? && q == c.page && j == c.k)
  {
    hide ListsOk, SlabsOk, LayoutOk, Live, Allocated, Grown;
    var before := Before(l, a, canGrow, page);
    CacheSeparate(l, f, a);
    if canGrow {
      GrownLive(l, a, page);
      GrownSeparate(l, a, page);
    }
    CacheBounded(l, f, a, page);
    var c := Allocated(l, before).1;
    if c.Some? {
      ChoiceFits(l, before);
      AllocatedLive(l, before, 0, 0);
    }
    forall q, j: nat
      ensures Live(l, Allocated(l, before).0, q, j) <==> Live(l, before, q, j) || (c.Some? && q == c.page && j == c.k)
    {
      if c.Some? { AllocatedLive(l, before, q, j); } else { NothingTaken(l, before, q, j); }
    }
  }

  lemma NothingTaken(l: Layout, a: Lists, q: nat, j: nat)
    requires Allocated(l, a).1.None?
    ensures Live(l, Allocated(l, a).0, q, j) <==> Live(l, a, q, j)
  {}

  /** With two objects or more in a slab, every slab stays on its list, and only growing can fail. */
  lemma AllocationPlaced(l: Layout, f: Fields, a: Lists, canGrow: bool, page: nat)
    requires CacheOk(l, f, a) && Placed(l, a) && 2 <= l.count && (canGrow ==> page !in a.free)
    ensures var (a', c) := Allocated(l, Before(l, a, canGrow, page));
            && Placed(l, a')
            && (c.None? ==> !canGrow && a.partial == [] && a.empty == [] && a' == a)
  {
    hide SlabsOk, LayoutOk, Placed, Allocated, Grown;
    CacheSeparate(l, f, a);
    if a.partial == [] && a.empty == [] {
      if canGrow {
        GrownPlaced(l, a, page);
        GrownSeparate(l, a, page);
      } else {
        NoSlab(l, f, a);
        return;
      }
    }
    BeforeHasSlab(l, a, canGrow, page);
    AllocatedPlaced(l, Before(l, a, canGrow, page));
  }

  lemma BeforeHasSlab(l: Layout, a: Lists, canGrow: bool, page: nat)
    requires canGrow || a.partial != [] || a.empty != []
    ensures var b := Before(l, a, canGrow, page); b.partial != [] || b.empty != []
  {}

  lemma GrownSeparate(l: Layout, a: Lists, p: nat)
    requires Separate(a) && p !in a.free
    ensures Separate(Grown(l, a, p))
  {}

  ghost predicate Bounded(l: Layout, a: Lists) {
    forall p, i :: p in a.free && 0 <= i < |a.free[p]| ==> a.free[p][i] < l.count
  }

  lemma CacheBounded(l: Layout, f: Fields, a: Lists, page: nat)
    requires SlabsOk(l, f, a)
    ensures Bounded(l, a) && Bounded(l, Grown(l, a, page))
  {
    forall p, i | p in a.free && 0 <= i < |a.free[p]|
      ensures a.free[p][i] < l.count
    {
      assert SlabOk(l, f, p, a.free[p]) && FreeAt(l, p, a.free[p], f.mem, i);
    }
  }

  lemma ChoiceFits(l: Layout, a: Lists)
    requires Bounded(l, a) && Allocated(l, a).1.Some?
    ensures Allocated(l, a).1.k < l.count
  {}

  class Cache {
    const layout: Layout
    var fields: Fields
    ghost var lists: Lists

    /** The counters and the free lists agree with the lists. Where there is room for two objects or
        more in a slab, every slab is on its list. */
    ghost predicate Valid()
      reads this
    {
      CacheOk(layout, fields, lists) && Empties(layout, lists) && (2 <= layout.count ==> Placed(layout, lists))
    }

    /** slab_newcache. */
    constructor (size: nat, alignment: nat)
      requires 0 < size
      ensures Valid() && layout == LayoutFor(size, alignment) && forall p, k: nat :: !Live(layout, lists, p, k)
    {
      LayoutForOk(size, alignment);
      layout := LayoutFor(size, alignment);
      fields := Fields(0, 0, 0, map[], map[], map[], map[], map[], map[]);
      lists := Lists([], [], [], map[]);
    }

    /** Allocation makes one object live that was not, or none. With room for two objects in a slab it
        fails only if growing fails. */
    method Allocate(canGrow: bool, page: nat, base: nat) returns (x: nat, ghost p: nat, ghost k: nat)
      requires Valid() && (canGrow ==> NewPage(layout, fields, lists, page, base))
      modifies this`fields, this`lists
      ensures Valid()
      ensures x == 0 && 2 <= layout.count ==>
                !canGrow && old(lists.partial) == [] && old(lists.empty) == [] && lists == old(lists)
      ensures x != 0 ==> x == Object(layout, p, Get(fields.base, p), k) && !Live(layout, old(lists), p, k)
      ensures forall q, j: nat :: Live(layout, lists, q, j) <==>
                                  Live(layout, old(lists), q, j) || (x != 0 && q == p && j == k)
    {
      hide ListsOk, SlabsOk, LayoutOk, Placed, Empties, Object, Allocated, Before;
      ghost var before := Before(layout, lists, canGrow, page);
      BeforeEmpties(layout, fields, lists, canGrow, page);
      ghost var c := Allocated(layout, before).1;
      AllocationLive(layout, fields, lists, canGrow, page);
      if 2 <= layout.count {
        AllocationPlaced(layout, fields, lists, canGrow, page);
      }
      fields, x := AllocateIn(layout, fields, canGrow, page, base, lists);
      lists := Allocated(layout, before).0;
      p, k := if c.Some? then c.page else 0, if c.Some? then c.k else 0;
    }

    /** Freeing a live object makes exactly that one not live. The cache stays consistent exactly if
        there is room for two objects or more in a slab. */
    method Free(x: nat, ghost p: nat, ghost k: nat)
      requires Valid() && Live(layout, lists, p, k) && x == Object(layout, p, Get(fields.base, p), k)
      modifies this`fields, this`lists
      ensures 2 <= layout.count ==> Valid()
      ensures layout.count == 1 ==> forall a :: !CacheOk(layout, fields, a)
      ensures forall q, j: nat :: Live(layout, lists, q, j) <==>
                                  Live(layout, old(lists), q, j) && !(q == p && j == k)
    {
      hide ListsOk, SlabsOk, Placed, Object, Freed, Separate, LayoutOk;
      CacheSeparate(layout, fields, lists);
      LiveCount(layout, fields, lists, p, k);
      LiveListed(layout, fields, lists, p);
      if 2 <= layout.count {
        FreedPlaced(layout, lists, p, k);
        PlacedEmpties(layout, Freed(layout, lists, p, k));
      }
      forall q, j: nat
        ensures Live(layout, Freed(layout, lists, p, k), q, j) <==> Live(layout, lists, q, j) && !(q == p && j == k)
      {
        FreedLive(layout, lists, p, k, q, j);
      }
      fields := FreeIn(layout, fields, x, lists, p, k);
      lists := Freed(layout, lists, p, k);
      forall a
        ensures layout.count == 1 ==> !CacheOk(layout, fields, a)
      {
        if layout.count == 1 { NoLists(fields, a); }
      }
    }
  }

  lemma PlacedEmpties(l: Layout, a: Lists)
    requires Placed(l, a)
    ensures Empties(l, a)
  {}

  lemma LiveListed(l: Layout, f: Fields, a: Lists, p: nat)
    requires ListsOk(f, a) && Empties(l, a) && p in a.free && |a.free[p]| < l.count
    ensures p in a.full || p in a.partial
  {}

  lemma BeforeEmpties(l: Layout, f: Fields, a: Lists, canGrow: bool, page: nat)
    requires CacheOk(l, f, a) && Empties(l, a) && (canGrow ==> page !in a.free)
    ensures Empties(l, Allocated(l, Before(l, a, canGrow, page)).0)
  {
    hide ListsOk, SlabsOk, LayoutOk, Allocated;
    CacheSeparate(l, f, a);
    if canGrow { GrownSeparate(l, a, page); }
    AllocatedEmpties(l, Before(l, a, canGrow, page));
  }
}
