/**
 The four-level page tables of kernel-src/arch/x86-64/mmu.c as a flat map. Every table has its own
 lower half; the upper half is shared by all of them. Physical pages are numbered, and page zero
 is never handed out.
 */
module PageTable {
  import opened Arith
  import opened Common

  /** An entry: the page that its address bits name, and its flags. */
  datatype Entry = Entry(page: nat, flags: nat)

  const EMPTY: Entry := Entry(0, 0)

  /** Flags of an entry that points to a table: present, writable, user. */
  const INTERMEDIATE: nat := 7

  /** The position of a table page: the table it belongs to, and the indices that lead to it. The
      tables below the upper half of the top level belong to nobody, written as zero. */
  datatype Node = Node(root: nat, path: seq<nat>)

  /** The page at every position, and the position of every page. */
  datatype Tables = Tables(at: map<Node, nat>, node: map<nat, Node>)

  predicate ValidNode(n: Node) {
    && |n.path| <= 3 && (forall k :: 0 <= k < |n.path| ==> n.path[k] < 512)
    && (n.root == 0 <==> n.path != [] && 256 <= n.path[0])
  }

  function NodeOf(root: nat, path: seq<nat>): (n: Node) {
    if path != [] && 256 <= path[0] then Node(0, path) else Node(root, path)
  }

  /** The position below entry i of a table page. */
  function Down(n: Node, i: nat): (m: Node) {
    NodeOf(n.root, n.path + [i])
  }

  /** The position above: that of the page whose entry points here. */
  function Up(n: Node): (m: Node)
    requires n.path != []
  {
    Node(n.root, n.path[..|n.path| - 1])
  }

  /** The tables of the shared half have no single page above them. */
  predicate HasUp(n: Node) {
    |n.path| >= 2 || (|n.path| == 1 && n.root != 0)
  }

  /** The page below entry i, or zero. */
  function Child(t: Tables, n: Node, i: nat): (page: nat) {
    if Down(n, i) in t.at then t.at[Down(n, i)] else 0
  }

  ghost predicate TablesOk(t: Tables) {
    && (forall n :: n in t.at ==> ValidNode(n) && t.at[n] != 0 && t.at[n] in t.node && t.node[t.at[n]] == n)
    && (forall x :: x in t.node ==> t.node[x] in t.at && t.at[t.node[x]] == x)
    && (forall n :: n in t.at && n.path == [] ==> t.at[n] == n.root)
    && (forall i :: 256 <= i < 512 ==> Node(0, [i]) in t.at)
    && (forall n {:trigger HasUp(n)} :: n in t.at && HasUp(n) ==> Up(n) in t.at)
  }

  function Pointer(page: nat): (e: Entry) {
    if page == 0 then EMPTY else Entry(page, INTERMEDIATE)
  }

  ghost predicate NodeStored(mem: map<nat, seq<Entry>>, t: Tables, n: Node)
    requires n in t.at
  {
    && t.at[n] in mem && |mem[t.at[n]]| == 512
    && (|n.path| < 3 ==> forall i :: 0 <= i < 512 ==> mem[t.at[n]][i] == Pointer(Child(t, n, i)))
  }

  ghost predicate Stored(mem: map<nat, seq<Entry>>, t: Tables) {
    forall n :: n in t.at ==> NodeStored(mem, t, n)
  }

  ghost predicate PagesOk(mem: map<nat, seq<Entry>>, free: set<nat>, t: Tables) {
    0 !in mem && free <= mem.Keys && t.node.Keys <= mem.Keys && t.node.Keys !! free
  }

  ghost predicate Rep(mem: map<nat, seq<Entry>>, free: set<nat>, t: Tables) {
    TablesOk(t) && Stored(mem, t) && PagesOk(mem, free, t)
  }

  /** The four indices of an address. */
  predicate IsAddress(a: seq<nat>) {
    |a| == 4 && forall k :: 0 <= k < 4 ==> a[k] < 512
  }

  /** The flat map: what a table says about an address. */
  ghost function Lookup(mem: map<nat, seq<Entry>>, t: Tables, root: nat, a: seq<nat>): (e: Entry)
    requires Stored(mem, t) && IsAddress(a)
  {
    var n := NodeOf(root, a[..3]);
    if n in t.at then assert NodeStored(mem, t, n); mem[t.at[n]][a[3]] else EMPTY
  }

  /** All tables agree on the upper half. */
  lemma SharedHalf(mem: map<nat, seq<Entry>>, t: Tables, r: nat, s: nat, a: seq<nat>)
    requires Stored(mem, t) && IsAddress(a) && 256 <= a[0]
    ensures Lookup(mem, t, r, a) == Lookup(mem, t, s, a)
  {
    assert a[..3][0] == a[0];
  }

  // ----- A new table page

  ghost function WithTable(t: Tables, n: Node, c: nat): (t': Tables) {
    Tables(t.at[n := c], t.node[c := n])
  }

  function Zeros(): (s: seq<Entry>)
    ensures |s| == 512 && forall i :: 0 <= i < 512 ==> s[i] == EMPTY
  {
    seq(512, _ => EMPTY)
  }

  ghost predicate SameMap(mem: map<nat, seq<Entry>>, t: Tables, mem': map<nat, seq<Entry>>, t': Tables)
    requires Stored(mem, t) && Stored(mem', t')
  {
    forall r, a :: IsAddress(a) ==> Lookup(mem', t', r, a) == Lookup(mem, t, r, a)
  }

  lemma DownUp(n: Node, i: nat)
    requires ValidNode(n) && |n.path| < 3 && i < 512 && (n.path == [] ==> i < 256)
    ensures ValidNode(Down(n, i)) && Down(n, i) == Node(n.root, n.path + [i])
    ensures HasUp(Down(n, i)) && Up(Down(n, i)) == n
  {
    assert (n.path + [i])[..|n.path|] == n.path;
    assert n.path != [] ==> (n.path + [i])[0] == n.path[0];
  }

  lemma DownInjective(n: Node, i: nat, m: Node, j: nat)
    requires ValidNode(n) && ValidNode(m) && |n.path| < 3 && |m.path| < 3 && i < 512 && j < 512
    requires n.path == [] ==> i < 256
    requires Down(n, i) == Down(m, j)
    ensures n == m && i == j
  {
    DownUp(n, i);
    assert Down(m, j).path == m.path + [j];
    assert (n.path + [i])[|n.path|] == i && (m.path + [j])[|m.path|] == j;
    assert |n.path| == |m.path| && (m.path + [j])[..|m.path|] == m.path;
    if m.path != [] || j < 256 { DownUp(m, j); }
  }

  /** Nothing is below a position that has no page. */
  lemma NoneBelow(t: Tables, n: Node, i: nat)
    requires TablesOk(t) && ValidNode(n) && n !in t.at && |n.path| < 3 && i < 512 && (n.path == [] ==> i < 256)
    ensures Down(n, i) !in t.at
  {
    DownUp(n, i);
  }

  /** A position can get a page: the page above it is there, and it has none itself. */
  ghost predicate IsGap(t: Tables, n: Node, i: nat) {
    n in t.at && |n.path| < 3 && i < 512 && Down(n, i) !in t.at
  }

  lemma GapIsOwn(t: Tables, n: Node, i: nat)
    requires TablesOk(t) && IsGap(t, n, i)
    ensures n.path == [] ==> i < 256
    ensures ValidNode(n) && ValidNode(Down(n, i)) && HasUp(Down(n, i)) && Up(Down(n, i)) == n && Down(n, i).path != []
  {
    assert n.path == [] ==> n.path + [i] == [i];
    DownUp(n, i);
  }

  lemma TablesAfter(t: Tables, n: Node, i: nat, c: nat)
    requires TablesOk(t) && IsGap(t, n, i) && c !in t.node && c != 0
    ensures TablesOk(WithTable(t, Down(n, i), c))
  {
    GapIsOwn(t, n, i);
  }

  lemma ChildAfter(t: Tables, n: Node, i: nat, c: nat, m: Node, j: nat)
    requires TablesOk(t) && IsGap(t, n, i) && ValidNode(m) && |m.path| < 3 && j < 512
    ensures Child(WithTable(t, Down(n, i), c), m, j) == if m == n && j == i then c else Child(t, m, j)
  {
    GapIsOwn(t, n, i);
    if Down(n, i) == Down(m, j) {
      DownInjective(n, i, m, j);
    }
  }

  ghost function MemAfter(mem: map<nat, seq<Entry>>, t: Tables, n: Node, i: nat, c: nat): (mem': map<nat, seq<Entry>>)
    requires n in t.at && t.at[n] in mem && i < |mem[t.at[n]]|
  {
    mem[c := Zeros()][t.at[n] := mem[t.at[n]][i := Pointer(c)]]
  }

  lemma StoredAfter(mem: map<nat, seq<Entry>>, t: Tables, n: Node, i: nat, c: nat, m: Node)
    requires TablesOk(t) && Stored(mem, t) && IsGap(t, n, i) && c !in t.node && c != 0
    requires m in WithTable(t, Down(n, i), c).at
    ensures t.at[n] in mem && |mem[t.at[n]]| == 512
    ensures NodeStored(MemAfter(mem, t, n, i, c), WithTable(t, Down(n, i), c), m)
  {
    assert NodeStored(mem, t, n);
    GapIsOwn(t, n, i);
    var t', mem' := WithTable(t, Down(n, i), c), MemAfter(mem, t, n, i, c);
    assert m in t.at ==> NodeStored(mem, t, m);
    if |m.path| < 3 {
      forall j | 0 <= j < 512
        ensures mem'[t'.at[m]][j] == Pointer(Child(t', m, j))
      {
        ChildAfter(t, n, i, c, m, j);
        if m == Down(n, i) { NoneBelow(t, m, j); }
      }
    }
  }

  lemma MapAfter(mem: map<nat, seq<Entry>>, t: Tables, n: Node, i: nat, c: nat, r: nat, a: seq<nat>)
    requires TablesOk(t) && Stored(mem, t) && IsGap(t, n, i) && c !in t.node && IsAddress(a)
    requires t.at[n] in mem && i < |mem[t.at[n]]| && Stored(MemAfter(mem, t, n, i, c), WithTable(t, Down(n, i), c))
    ensures Lookup(MemAfter(mem, t, n, i, c), WithTable(t, Down(n, i), c), r, a) == Lookup(mem, t, r, a)
  {
    var m := NodeOf(r, a[..3]);
    if m in t.at { assert NodeStored(mem, t, m); }
  }

  lemma AddTable(mem: map<nat, seq<Entry>>, free: set<nat>, t: Tables, n: Node, i: nat, c: nat,
                 mem': map<nat, seq<Entry>>, t': Tables)
    requires Rep(mem, free, t) && IsGap(t, n, i) && c in free
    requires t.at[n] in mem && i < |mem[t.at[n]]| && mem' == MemAfter(mem, t, n, i, c)
    requires t' == WithTable(t, Down(n, i), c)
    ensures Rep(mem', free - {c}, t') && SameMap(mem, t, mem', t')
  {
    TablesAfter(t, n, i, c);
    forall m | m in t'.at
      ensures NodeStored(mem', t', m)
    {
      StoredAfter(mem, t, n, i, c, m);
    }
    forall r, a | IsAddress(a)
      ensures Lookup(mem', t', r, a) == Lookup(mem, t, r, a)
    {
      MapAfter(mem, t, n, i, c, r, a);
    }
  }

  // ----- Writing an entry of the last level

  lemma LeafAfter(mem: map<nat, seq<Entry>>, free: set<nat>, t: Tables, n: Node, k: nat, e: Entry,
                  mem': map<nat, seq<Entry>>)
    requires Rep(mem, free, t) && n in t.at && |n.path| == 3 && k < 512 && t.at[n] in mem && |mem[t.at[n]]| == 512
    requires mem' == mem[t.at[n] := mem[t.at[n]][k := e]]
    ensures Rep(mem', free, t)
    ensures forall r, b :: IsAddress(b) ==>
              Lookup(mem', t, r, b) == if NodeOf(r, b[..3]) == n && b[3] == k then e else Lookup(mem, t, r, b)
  {
    forall m | m in t.at
      ensures NodeStored(mem', t, m)
    {
      assert NodeStored(mem, t, m);
    }
    forall r, b | IsAddress(b)
      ensures Lookup(mem', t, r, b) == if NodeOf(r, b[..3]) == n && b[3] == k then e else Lookup(mem, t, r, b)
    {
      var m := NodeOf(r, b[..3]);
      if m in t.at { assert NodeStored(mem, t, m) && NodeStored(mem', t, m); }
    }
  }

  /** The places of the flat map that one write reaches: an address of the upper half is the same
      place in every table. */
  predicate SamePlace(r: nat, b: seq<nat>, top: nat, a: seq<nat>)
    requires IsAddress(a)
  {
    b == a && (r == top || 256 <= a[0])
  }

  ghost predicate Updated(mem: map<nat, seq<Entry>>, t: Tables, mem': map<nat, seq<Entry>>, t': Tables,
                          top: nat, a: seq<nat>, e: Entry)
    requires Stored(mem, t) && Stored(mem', t') && IsAddress(a)
  {
    forall r, b :: IsAddress(b) ==>
      Lookup(mem', t', r, b) == if SamePlace(r, b, top, a) then e else Lookup(mem, t, r, b)
  }

  lemma SameNode(r: nat, b: seq<nat>, top: nat, a: seq<nat>)
    requires IsAddress(a) && IsAddress(b) && top != 0
    ensures NodeOf(r, b[..3]) == NodeOf(top, a[..3]) && b[3] == a[3] <==> SamePlace(r, b, top, a)
  {
    assert b == b[..3] + [b[3]] && a == a[..3] + [a[3]];
    assert a[..3][0] == a[0] && b[..3][0] == b[0];
  }

  lemma LeafUpdates(mem: map<nat, seq<Entry>>, free: set<nat>, t: Tables, top: nat, a: seq<nat>, e: Entry,
                    mem': map<nat, seq<Entry>>)
    requires Rep(mem, free, t) && IsAddress(a) && top != 0 && NodeOf(top, a[..3]) in t.at
    requires var n := NodeOf(top, a[..3]);
             t.at[n] in mem && |mem[t.at[n]]| == 512 && mem' == mem[t.at[n] := mem[t.at[n]][a[3] := e]]
    ensures Rep(mem', free, t) && Updated(mem, t, mem', t, top, a, e)
  {
    hide TablesOk, Stored, PagesOk, Lookup, NodeOf, SamePlace;
    PathLength(top, a);
    LeafAfter(mem, free, t, NodeOf(top, a[..3]), a[3], e, mem');
    forall r, b | IsAddress(b)
      ensures Lookup(mem', t, r, b) == if SamePlace(r, b, top, a) then e else Lookup(mem, t, r, b)
    {
      SameNode(r, b, top, a);
    }
  }

  lemma PathLength(top: nat, a: seq<nat>)
    requires IsAddress(a)
    ensures |NodeOf(top, a[..3]).path| == 3
  {}

  /** The indices that mmu.c takes from an address, nine bits each above the page offset. */
  function Indices(addr: nat): (a: seq<nat>)
    ensures IsAddress(a)
  {
    [addr / 0x80_0000_0000 % 512, addr / 0x4000_0000 % 512, addr / 0x20_0000 % 512, addr / 0x1000 % 512]
  }

  /** Two addresses have the same indices exactly if they are in the same page of the 48-bit space. */
  lemma IndicesArePages(x: nat, y: nat)
    ensures Indices(x) == Indices(y) <==> x / 0x1000 % 0x10_0000_0000 == y / 0x1000 % 0x10_0000_0000
  {
    hide Indices;
    PageNumber(x);
    PageNumber(y);
    NumberUnique(Indices(x), Indices(y));
  }

  function Number(a: seq<nat>): (n: nat)
    requires IsAddress(a)
  {
    ((a[0] * 512 + a[1]) * 512 + a[2]) * 512 + a[3]
  }

  lemma NumberUnique(a: seq<nat>, b: seq<nat>)
    requires IsAddress(a) && IsAddress(b)
    ensures Number(a) == Number(b) <==> a == b
  {
    CellUnique((a[0] * 512 + a[1]) * 512 + a[2], a[3], (b[0] * 512 + b[1]) * 512 + b[2], b[3], 512);
    CellUnique(a[0] * 512 + a[1], a[2], b[0] * 512 + b[1], b[2], 512);
    CellUnique(a[0], a[1], b[0], b[1], 512);
  }

  lemma PageNumber(x: nat)
    ensures x / 0x1000 % 0x10_0000_0000 == Number(Indices(x))
  {
    var p := x / 0x1000;
    var q := p / 512;
    var r := q / 512;
    var s := r / 512;
    assert x / 0x20_0000 == q && x / 0x4000_0000 == r && x / 0x80_0000_0000 == s;
    var n := ((s % 512 * 512 + r % 512) * 512 + q % 512) * 512 + p % 512;
    assert p == s / 512 * 0x10_0000_0000 + n;
    DivModUnique(p, 0x10_0000_0000, s / 512, n);
  }

  const ADDRESS_MASK: bv64 := 0x7fff_ffff_ffff_f000

  /** An entry made of an address and flags gives both back, so that it can be taken for the pair.
      Flags are below bit twelve, or bit sixty-three. */
  lemma EntryRoundTrip(address: bv64, flags: bv64)
    requires flags & ADDRESS_MASK == 0
    ensures ((address & ADDRESS_MASK) | flags) & ADDRESS_MASK == address & ADDRESS_MASK
    ensures ((address & ADDRESS_MASK) | flags) & !ADDRESS_MASK == flags
  {}

  /** The masks and shifts of get_page tell two addresses apart exactly if bits twelve to
      forty-seven do. */
  lemma MasksArePages(x: bv64, y: bv64)
    ensures (&& (x & 0xff80_0000_0000) >> 39 == (y & 0xff80_0000_0000) >> 39
             && (x & 0x7f_c000_0000) >> 30 == (y & 0x7f_c000_0000) >> 30
             && (x & 0x3fe0_0000) >> 21 == (y & 0x3fe0_0000) >> 21 && (x & 0x1f_f000) >> 12 == (y & 0x1f_f000) >> 12)
       <==> x & 0xffff_ffff_f000 == y & 0xffff_ffff_f000
  {
    ShiftKeeps(x, y);
    assert x & 0xffff_ffff_f000 == (x & 0xff80_0000_0000) | (x & 0x7f_c000_0000) | (x & 0x3fe0_0000) | (x & 0x1f_f000);
    assert y & 0xffff_ffff_f000 == (y & 0xff80_0000_0000) | (y & 0x7f_c000_0000) | (y & 0x3fe0_0000) | (y & 0x1f_f000);
    PartsOfMask(x);
    PartsOfMask(y);
  }

  lemma ShiftKeeps(x: bv64, y: bv64)
    ensures (x & 0xff80_0000_0000) >> 39 == (y & 0xff80_0000_0000) >> 39
       <==> x & 0xff80_0000_0000 == y & 0xff80_0000_0000
    ensures (x & 0x7f_c000_0000) >> 30 == (y & 0x7f_c000_0000) >> 30 <==> x & 0x7f_c000_0000 == y & 0x7f_c000_0000
    ensures (x & 0x3fe0_0000) >> 21 == (y & 0x3fe0_0000) >> 21 <==> x & 0x3fe0_0000 == y & 0x3fe0_0000
    ensures (x & 0x1f_f000) >> 12 == (y & 0x1f_f000) >> 12 <==> x & 0x1f_f000 == y & 0x1f_f000
  {}

  lemma PartsOfMask(x: bv64)
    ensures x & 0xff80_0000_0000 == (x & 0xffff_ffff_f000) & 0xff80_0000_0000
    ensures x & 0x7f_c000_0000 == (x & 0xffff_ffff_f000) & 0x7f_c000_0000
    ensures x & 0x3fe0_0000 == (x & 0xffff_ffff_f000) & 0x3fe0_0000
    ensures x & 0x1f_f000 == (x & 0xffff_ffff_f000) & 0x1f_f000
  {}

  /** The tables, the pages they are made of, and the free pages. */
  class Mmu {
    var mem: map<nat, seq<Entry>>
    var free: set<nat>
    var template: nat
    ghost var tables: Tables

    /** The template maps nothing in the lower half. */
    ghost predicate Valid()
      reads this
    {
      && Rep(mem, free, tables) && IsTop(tables, template)
      && forall i :: 0 <= i < 256 ==> Node(template, [i]) !in tables.at
    }

    /** The state that arch_mmu_init sets up: no table maps anything. */
    constructor (memory: map<nat, seq<Entry>>, available: set<nat>)
      requires 0 !in memory && available <= memory.Keys && 257 <= |available|
      ensures Valid() && forall r, a :: IsAddress(a) ==> Lookup(mem, tables, r, a) == EMPTY
    {
      hide Rep, Lookup, IsAddress;
      var m, f, top, t := PrepareTemplate(memory, available);
      mem, free, template, tables := m, f, top, t;
    }

    /** What arch_mmu_getphysical and the other readers see. */
    ghost function At(root: nat, addr: nat): (e: Entry)
      requires Valid()
      reads this
    {
      Lookup(mem, tables, root, Indices(addr))
    }

    /** The page that an entry points to, or zero. */
    method Next(page: nat, i: nat, ghost n: Node) returns (child: nat)
      requires Valid() && Holds(tables, n, page) && |n.path| < 3 && i < 512
      ensures child == Child(tables, n, i)
    {
      assert NodeStored(mem, tables, n);
      child := mem[page][i].page;
    }

    /** get_page: the last-level table and the index in it; page zero stands for NULL. */
    method GetPage(top: nat, addr: nat) returns (page: nat, i: nat)
      requires Valid() && IsTop(tables, top)
      ensures i == Indices(addr)[3] && page == PageAt(tables, NodeOf(top, Indices(addr)[..3]))
    {
      hide TablesOk, IsAddress, Indices, Stored;
      var a := Indices(addr);
      AddressSteps(top, a);
      page, i := 0, a[3];
      var pdpt := Next(top, a[0], Node(top, []));
      Missing(tables, top, a);
      if pdpt != 0 {
        var pd := Next(pdpt, a[1], NodeOf(top, a[..1]));
        if pd != 0 {
          page := Next(pd, a[2], NodeOf(top, a[..2]));
        }
      }
    }

    /** The page that an entry points to; a new, empty table if there is none. */
    method EnsureNext(page: nat, i: nat, ghost n: Node) returns (ok: bool, child: nat)
      requires Valid() && Holds(tables, n, page) && |n.path| < 3 && i < 512
      requires n == Node(template, []) ==> 256 <= i
      modifies this`mem, this`free, this`tables
      ensures Valid() && SameMap(old(mem), old(tables), mem, tables) && Grown(old(tables), tables)
      ensures ok ==> Holds(tables, Down(n, i), child)
      ensures !ok ==> free == {}
    {
      hide TablesOk, Stored, SameMap, Down;
      Nonzero(mem, tables, n, i);
      SameMapReflexive(mem, tables);
      ok, child := true, mem[page][i].page;
      if child == 0 {
        if free == {} {
          return false, 0;
        }
        child :| child in free;
        free := free - {child};
        mem := mem[page := mem[page][i := Pointer(child)]];
        mem := mem[child := Zeros()];
        tables := WithTable(tables, Down(n, i), child);
        AddTable(old(mem), old(free), old(tables), n, i, child, mem, tables);
        TemplateKept(old(tables), template, n, i, child);
      }
    }

    /** The last-level table of an address; missing tables on the way are added. */
    method EnsureTable(top: nat, a: seq<nat>) returns (ok: bool, pt: nat)
      requires Valid() && IsTop(tables, top) && IsAddress(a) && (top == template ==> 256 <= a[0])
      modifies this`mem, this`free, this`tables
      ensures Valid() && Grown(old(tables), tables) && SameMap(old(mem), old(tables), mem, tables)
      ensures ok ==> Holds(tables, NodeOf(top, a[..3]), pt)
      ensures !ok ==> free == {}
    {
      hide TablesOk, Stored, PagesOk, SameMap, Grown, Down, NodeOf;
      AddressSteps(top, a);
      NeverTemplate(template, top, a);
      var page;
      ok, page := EnsureNext(top, a[0], Node(top, []));
      if !ok { return false, 0; }
      ghost var mem1, tables1 := mem, tables;
      ok, page := EnsureNext(page, a[1], NodeOf(top, a[..1]));
      SameMapTransitive(old(mem), old(tables), mem1, tables1, mem, tables);
      GrownTransitive(old(tables), tables1, tables);
      if !ok { return false, 0; }
      ghost var mem2, tables2 := mem, tables;
      ok, pt := EnsureNext(page, a[2], NodeOf(top, a[..2]));
      SameMapTransitive(old(mem), old(tables), mem2, tables2, mem, tables);
      GrownTransitive(old(tables), tables2, tables);
    }

    method WriteLeaf(top: nat, pt: nat, a: seq<nat>, e: Entry)
      requires Valid() && IsTop(tables, top) && IsAddress(a) && Holds(tables, NodeOf(top, a[..3]), pt)
      modifies this`mem
      ensures Valid() && Updated(old(mem), tables, mem, tables, top, a, e)
    {
      hide TablesOk, Stored, Updated, NodeOf;
      LeafPage(mem, tables, top, a);
      mem := mem[pt := mem[pt][a[3] := e]];
      LeafUpdates(old(mem), free, tables, top, a, e, mem);
    }

    /** arch_mmu_map. A map that fails changes no translation. */
    method MapPage(top: nat, page: nat, addr: nat, flags: nat) returns (ok: bool)
      requires Valid() && IsTop(tables, top) && (top == template ==> 256 <= Indices(addr)[0])
      modifies this`mem, this`free, this`tables
      ensures Valid() && Grown(old(tables), tables)
      ensures ok ==> Updated(old(mem), old(tables), mem, tables, top, Indices(addr), Entry(page, flags))
      ensures !ok ==> SameMap(old(mem), old(tables), mem, tables) && free == {}
    {
      hide TablesOk, Stored, PagesOk, SameMap, Indices, Updated, NodeOf;
      var a, pt := Indices(addr), 0;
      ok, pt := EnsureTable(top, a);
      if ok {
        ghost var mem1 := mem;
        WriteLeaf(top, pt, a, Entry(page, flags));
        UpdatedAfterSame(old(mem), old(tables), mem1, mem, tables, top, a, Entry(page, flags));
      }
    }

    /** arch_mmu_unmap. */
    method Unmap(top: nat, addr: nat)
      requires Valid() && IsTop(tables, top)
      modifies this`mem
      ensures Valid() && Updated(old(mem), tables, mem, tables, top, Indices(addr), EMPTY)
    {
      hide Rep, Indices, Updated, NodeOf;
      var pt, _ := GetPage(top, addr);
      if pt == 0 {
        MissingIsEmpty(mem, free, tables, top, Indices(addr));
      } else {
        WriteLeaf(top, pt, Indices(addr), EMPTY);
      }
    }

    /** arch_mmu_remap. Page zero keeps the page; without a table nothing happens. */
    method Remap(top: nat, page: nat, addr: nat, flags: nat)
      requires Valid() && IsTop(tables, top)
      modifies this`mem
      ensures Valid()
      ensures NodeOf(top, Indices(addr)[..3]) in tables.at ==>
                Updated(old(mem), tables, mem, tables, top, Indices(addr),
                        Entry(if page == 0 then old(At(top, addr)).page else page, flags))
      ensures NodeOf(top, Indices(addr)[..3]) !in tables.at ==> mem == old(mem)
    {
      hide TablesOk, Stored, Indices, Updated, NodeOf;
      var pt, i := GetPage(top, addr);
      LeafPage(mem, tables, top, Indices(addr));
      if pt != 0 {
        WriteLeaf(top, pt, Indices(addr), Entry(if page == 0 then mem[pt][i].page else page, flags));
      }
    }

    /** arch_mmu_getphysical, and the readers of flags. */
    method Read(top: nat, addr: nat) returns (e: Entry)
      requires Valid() && IsTop(tables, top)
      ensures e == At(top, addr)
    {
      hide TablesOk, Stored, Indices, NodeOf;
      var pt, i := GetPage(top, addr);
      LeafPage(mem, tables, top, Indices(addr));
      e := if pt == 0 then EMPTY else mem[pt][i];
    }

    /** arch_mmu_newtable: a copy of the template. Page zero stands for NULL. */
    method NewTable() returns (top: nat)
      requires Valid()
      modifies this`mem, this`free, this`tables
      ensures Valid() && SameMap(old(mem), old(tables), mem, tables) && Grown(old(tables), tables)
      ensures top != 0 ==> IsTop(tables, top) && !IsTop(old(tables), top)
      ensures top != 0 ==> forall a :: IsAddress(a) && a[0] < 256 ==> Lookup(mem, tables, top, a) == EMPTY
      ensures top == 0 ==> free == {}
    {
      hide TablesOk, Stored, SameMap, Lookup, IsAddress;
      SameMapReflexive(mem, tables);
      if free == {} {
        return 0;
      }
      top :| top in free;
      TopFits(mem, tables, template);
      free := free - {top};
      mem := mem[top := mem[template]];
      tables := WithTable(tables, Node(top, []), top);
      AddTop(old(mem), old(free), old(tables), template, top, mem, tables);
    }

    /** pmm_release of a page that is in use. */
    method Release(page: nat)
      requires page in mem && page !in free
      modifies this`free
      ensures free == old(free) + {page}
    {
      free := free + {page};
    }

    /** destroy: the tables below a table are released, the lower half only at the top level, and so is
        the page of every address that is still mapped there. */
    method DestroyBelow(page: nat, depth: nat, n: Node) returns (released: map<seq<nat>, nat>)
      requires TablesOk(tables) && Stored(mem, tables) && tables.node.Keys <= mem.Keys
      requires Holds(tables, n, page) && n.root != 0 && |n.path| + depth == 3 && Below(tables, n) !! free
      modifies this`free
      ensures free == old(free) + Below(tables, n)
      ensures IsReleased(mem, tables, n, 512, released)
      decreases depth
    {
      hide TablesOk, Stored, Below, BelowUpTo, Child, IsReleased;
      var i := 0;
      var limit := if depth == 3 then 256 else 512;
      released := map[];
      BelowNone(tables, n);
      NoneReleased(mem, tables, n);
      while i < limit
        invariant i <= limit && free == old(free) + BelowUpTo(tables, n, i) && IsReleased(mem, tables, n, i, released)
      {
        var m := Node(n.root, n.path + [i]);
        EntryBelow(mem, tables, n, i);
        BelowStep(tables, n, i);
        var child := mem[page][i].page;
        if child != 0 && depth > 0 {
          BelowApart(tables, n, i);
          var more := DestroyBelow(child, depth - 1, m);
          ReleasedBelow(mem, tables, n, i, released, more);
          released := released + more;
          Release(child);
        } else if child != 0 {
          ReleasedPage(mem, tables, n, i, released, child);
          released := released[m.path := child];
        } else {
          ReleasedNothing(mem, tables, n, i, released);
        }
        i := i + 1;
      }
      BelowAll(tables, n);
      ReleasedAll(mem, tables, n, limit, released);
    }

    /** arch_mmu_destroytable: each of its table pages is released once, and no shared one is; so is
        the page of every address that its lower half still maps, once for each such address. */
    method DestroyTable(top: nat) returns (released: map<seq<nat>, nat>)
      requires Valid() && IsTop(tables, top) && top != template
      modifies this`free, this`tables
      ensures Valid() && free == old(free) + PagesOf(old(tables), top) && PagesOf(old(tables), top) !! old(free)
      ensures tables == Without(old(tables), top)
      ensures forall r, a :: IsAddress(a) && (r != top || 256 <= a[0]) ==>
                Lookup(mem, tables, r, a) == Lookup(mem, old(tables), r, a)
      ensures forall a :: a in released <==> IsAddress(a) && a[0] < 256 && Lookup(mem, old(tables), top, a).page != 0
      ensures forall a :: a in released ==> released[a] == Lookup(mem, old(tables), top, a).page
    {
      hide TablesOk, Stored, Below, PagesOf, Lookup, Without, IsReleased;
      TopBelow(tables, top);
      released := DestroyBelow(top, 3, Node(top, []));
      ReleasedFromTop(mem, tables, top, released);
      Release(top);
      tables := Without(tables, top);
      TableRemoved(mem, old(free), old(tables), top, template);
    }
  }

  // ----- Setting up

  /** The template, with tables below the first entries of its upper half. */
  ghost predicate Started(mem: map<nat, seq<Entry>>, free: set<nat>, t: Tables, template: nat, k: nat) {
    && PagesOk(mem, free, t) && template in mem && |mem[template]| == 512 && IsTop(t, template)
    && (forall n :: n in t.at ==>
          n == Node(template, []) || (|n.path| == 1 && n.root == 0 && 256 <= n.path[0] < k <= 512))
    && (forall i :: 256 <= i < k ==> Node(0, [i]) in t.at)
    && (forall n :: n in t.at ==> t.at[n] in t.node && t.node[t.at[n]] == n)
    && (forall x :: x in t.node ==> t.node[x] in t.at && t.at[t.node[x]] == x)
    && (forall i :: 0 <= i < 512 ==> mem[template][i] == Pointer(if 256 <= i < k then t.at[Node(0, [i])] else 0))
    && (forall i :: 256 <= i < k ==> t.at[Node(0, [i])] in mem && mem[t.at[Node(0, [i])]] == Zeros())
  }

  lemma StartStep(mem: map<nat, seq<Entry>>, free: set<nat>, t: Tables, template: nat, k: nat, c: nat)
    requires Started(mem, free, t, template, k) && 256 <= k < 512 && c in free
    ensures Started(mem[c := Zeros()][template := mem[template][k := Pointer(c)]], free - {c},
                    WithTable(t, Node(0, [k]), c), template, k + 1)
  {}

  /** The template of arch_mmu_init: a table for every entry of the upper half. */
  method PrepareTemplate(memory: map<nat, seq<Entry>>, available: set<nat>)
    returns (mem: map<nat, seq<Entry>>, free: set<nat>, template: nat, ghost t: Tables)
    requires 0 !in memory && available <= memory.Keys && 257 <= |available|
    ensures Rep(mem, free, t) && IsTop(t, template) && forall i :: 0 <= i < 256 ==> Node(template, [i]) !in t.at
    ensures forall r, a :: IsAddress(a) ==> Lookup(mem, t, r, a) == EMPTY
  {
    hide Started, Rep, Lookup, IsAddress;
    template :| template in available;
    free, mem := available - {template}, memory[template := Zeros()];
    t := Tables(map[Node(template, []) := template], map[template := Node(template, [])]);
    StartFirst(memory, available, template);
    var i := 256;
    while i < 512
      invariant 256 <= i <= 512 && Started(mem, free, t, template, i) && |free| == |available| - 1 - (i - 256)
    {
      StartPages(mem, free, t, template, i);
      var c :| c in free;
      StartStep(mem, free, t, template, i, c);
      free := free - {c};
      mem := mem[c := Zeros()];
      mem := mem[template := mem[template][i := Pointer(c)]];
      t := WithTable(t, Node(0, [i]), c);
      i := i + 1;
    }
    StartDone(mem, free, t, template);
    StartEmpty(mem, free, t, template);
  }

  lemma StartPages(mem: map<nat, seq<Entry>>, free: set<nat>, t: Tables, template: nat, k: nat)
    requires Started(mem, free, t, template, k)
    ensures template in mem && |mem[template]| == 512 && template !in free
  {
    assert Node(template, []) in t.at;
  }

  lemma StartFirst(memory: map<nat, seq<Entry>>, available: set<nat>, top: nat)
    requires 0 !in memory && available <= memory.Keys && top in available
    ensures Started(memory[top := Zeros()], available - {top},
                    Tables(map[Node(top, []) := top], map[top := Node(top, [])]), top, 256)
  {}

  lemma StartDone(mem: map<nat, seq<Entry>>, free: set<nat>, t: Tables, template: nat)
    requires Started(mem, free, t, template, 512)
    ensures Rep(mem, free, t) && IsTop(t, template) && forall i :: 0 <= i < 256 ==> Node(template, [i]) !in t.at
  {
    hide Child;
    StartTables(mem, free, t, template);
    forall n | n in t.at
      ensures NodeStored(mem, t, n)
    {
      StartStored(mem, free, t, template, n);
    }
  }

  lemma StartTables(mem: map<nat, seq<Entry>>, free: set<nat>, t: Tables, template: nat)
    requires Started(mem, free, t, template, 512)
    ensures TablesOk(t)
  {}

  lemma StartStored(mem: map<nat, seq<Entry>>, free: set<nat>, t: Tables, template: nat, n: Node)
    requires Started(mem, free, t, template, 512) && n in t.at
    ensures NodeStored(mem, t, n)
  {
    assert n != Node(template, []) ==> n == Node(0, [n.path[0]]);
    forall j | 0 <= j < 512
      ensures mem[t.at[n]][j] == Pointer(Child(t, n, j))
    {
      assert [] + [j] == [j];
    }
  }

  lemma StartEmpty(mem: map<nat, seq<Entry>>, free: set<nat>, t: Tables, template: nat)
    requires Started(mem, free, t, template, 512) && Rep(mem, free, t)
    ensures forall r, a :: IsAddress(a) ==> Lookup(mem, t, r, a) == EMPTY
  {
    forall r, a | IsAddress(a)
      ensures Lookup(mem, t, r, a) == EMPTY
    {
      PathLength(r, a);
    }
  }

  // ----- The pages of one table

  /** The page that an address maps to, through the tables of a root, or zero. */
  ghost function MappedPage(mem: map<nat, seq<Entry>>, t: Tables, root: nat, a: seq<nat>): (page: nat)
    requires Stored(mem, t) && IsAddress(a)
  {
    var n := Node(root, a[..3]);
    if n in t.at then assert NodeStored(mem, t, n); mem[t.at[n]][a[3]].page else 0
  }

  /** A mapped address below one of the first i entries of a table page. */
  ghost predicate MappedBelow(mem: map<nat, seq<Entry>>, t: Tables, n: Node, i: nat, a: seq<nat>)
    requires Stored(mem, t)
  {
    IsAddress(a) && n.path < a && a[|n.path|] < i && MappedPage(mem, t, n.root, a) != 0
  }

  /** Exactly the mapped addresses below the first i entries, each with its page. */
  ghost predicate IsReleased(mem: map<nat, seq<Entry>>, t: Tables, n: Node, i: nat, released: map<seq<nat>, nat>)
    requires Stored(mem, t)
  {
    && (forall a :: a in released <==> MappedBelow(mem, t, n, i, a))
    && (forall a :: a in released ==> released[a] == MappedPage(mem, t, n.root, a))
  }

  lemma NoneReleased(mem: map<nat, seq<Entry>>, t: Tables, n: Node)
    requires Stored(mem, t)
    ensures IsReleased(mem, t, n, 0, map[])
  {}

  /** An address below entry i and no earlier one. */
  lemma MappedStep(mem: map<nat, seq<Entry>>, t: Tables, n: Node, i: nat, a: seq<nat>)
    requires Stored(mem, t)
    ensures MappedBelow(mem, t, n, i + 1, a)
       <==> MappedBelow(mem, t, n, i, a) || (IsAddress(a) && n.path + [i] <= a && MappedPage(mem, t, n.root, a) != 0)
  {
    StepPath(n.path, i, a);
  }

  lemma ReleasedBelow(mem: map<nat, seq<Entry>>, t: Tables, n: Node, i: nat, released: map<seq<nat>, nat>,
                      more: map<seq<nat>, nat>)
    requires Stored(mem, t) && |n.path| < 3 && IsReleased(mem, t, n, i, released)
    requires IsReleased(mem, t, Node(n.root, n.path + [i]), 512, more)
    ensures IsReleased(mem, t, n, i + 1, released + more)
  {
    forall a
      ensures a in released + more <==> MappedBelow(mem, t, n, i + 1, a)
    {
      MappedStep(mem, t, n, i, a);
    }
  }

  lemma ReleasedPage(mem: map<nat, seq<Entry>>, t: Tables, n: Node, i: nat, released: map<seq<nat>, nat>, page: nat)
    requires TablesOk(t) && Stored(mem, t) && n in t.at && |n.path| == 3 && i < 512
    requires IsReleased(mem, t, n, i, released)
    requires t.at[n] in mem && |mem[t.at[n]]| == 512 && page == mem[t.at[n]][i].page != 0
    ensures IsReleased(mem, t, n, i + 1, released[n.path + [i] := page]) && n.path + [i] !in released
  {
    var a0 := n.path + [i];
    LeafAddress(mem, t, n, i);
    var all := released[a0 := page];
    forall a
      ensures a in all <==> MappedBelow(mem, t, n, i + 1, a)
    {
      MappedStep(mem, t, n, i, a);
      assert IsAddress(a) && a0 <= a ==> a == a0;
    }
  }

  /** The address that entry i of a table of the last level stands for. */
  lemma LeafAddress(mem: map<nat, seq<Entry>>, t: Tables, n: Node, i: nat)
    requires TablesOk(t) && Stored(mem, t) && n in t.at && |n.path| == 3 && i < 512
    requires t.at[n] in mem && |mem[t.at[n]]| == 512
    ensures IsAddress(n.path + [i]) && MappedPage(mem, t, n.root, n.path + [i]) == mem[t.at[n]][i].page
  {
    assert (n.path + [i])[..3] == n.path && n == Node(n.root, n.path);
    assert ValidNode(n);
  }

  lemma ReleasedNothing(mem: map<nat, seq<Entry>>, t: Tables, n: Node, i: nat, released: map<seq<nat>, nat>)
    requires TablesOk(t) && Stored(mem, t) && n in t.at && n.root != 0 && i < 512 && IsReleased(mem, t, n, i, released)
    requires |n.path| == 3 ==> t.at[n] in mem && |mem[t.at[n]]| == 512 && mem[t.at[n]][i].page == 0
    requires |n.path| < 3 ==> Node(n.root, n.path + [i]) !in t.at
    requires |n.path| <= 3
    ensures IsReleased(mem, t, n, i + 1, released)
  {
    forall a
      ensures MappedBelow(mem, t, n, i + 1, a) <==> MappedBelow(mem, t, n, i, a)
    {
      MappedStep(mem, t, n, i, a);
      if IsAddress(a) && n.path + [i] <= a { NotMapped(mem, t, n, i, a); }
    }
  }

  lemma NotMapped(mem: map<nat, seq<Entry>>, t: Tables, n: Node, i: nat, a: seq<nat>)
    requires TablesOk(t) && Stored(mem, t) && n in t.at && n.root != 0 && i < 512 && |n.path| <= 3
    requires IsAddress(a) && n.path + [i] <= a
    requires |n.path| == 3 ==> t.at[n] in mem && |mem[t.at[n]]| == 512 && mem[t.at[n]][i].page == 0
    requires |n.path| < 3 ==> Node(n.root, n.path + [i]) !in t.at
    ensures MappedPage(mem, t, n.root, a) == 0
  {
    var m := Node(n.root, a[..3]);
    if |n.path| == 3 {
      LeafAddress(mem, t, n, i);
      assert a == n.path + [i];
    } else {
      assert a[..3][..|n.path| + 1] == n.path + [i];
      if m in t.at { PrefixIn(t, m, |n.path| + 1); }
    }
  }

  lemma ReleasedAll(mem: map<nat, seq<Entry>>, t: Tables, n: Node, limit: nat, released: map<seq<nat>, nat>)
    requires TablesOk(t) && Stored(mem, t) && n.root != 0 && IsReleased(mem, t, n, limit, released)
    requires limit == if n.path == [] then 256 else 512
    ensures IsReleased(mem, t, n, 512, released)
  {
    forall a
      ensures MappedBelow(mem, t, n, limit, a) <==> MappedBelow(mem, t, n, 512, a)
    {
      if IsAddress(a) && n.path == [] && Node(n.root, a[..3]) in t.at {
        assert ValidNode(Node(n.root, a[..3])) && a[..3][0] == a[0];
      }
    }
  }

  lemma ReleasedFromTop(mem: map<nat, seq<Entry>>, t: Tables, top: nat, released: map<seq<nat>, nat>)
    requires TablesOk(t) && Stored(mem, t) && top != 0 && IsReleased(mem, t, Node(top, []), 512, released)
    ensures forall a :: a in released <==> IsAddress(a) && a[0] < 256 && Lookup(mem, t, top, a).page != 0
    ensures forall a :: a in released ==> released[a] == Lookup(mem, t, top, a).page
  {
    forall a | IsAddress(a)
      ensures MappedPage(mem, t, top, a) == if a[0] < 256 then Lookup(mem, t, top, a).page else 0
    {
      assert a[..3][0] == a[0];
      if Node(top, a[..3]) in t.at { assert ValidNode(Node(top, a[..3])); }
    }
  }

  ghost function PagesOf(t: Tables, root: nat): (s: set<nat>) {
    set x | x in t.node && t.node[x].root == root
  }

  ghost function Below(t: Tables, n: Node): (s: set<nat>) {
    set x | x in t.node && t.node[x].root == n.root && n.path < t.node[x].path
  }

  ghost function BelowUpTo(t: Tables, n: Node, i: nat): (s: set<nat>) {
    set x | x in t.node && t.node[x].root == n.root && n.path < t.node[x].path && t.node[x].path[|n.path|] < i
  }

  ghost function Without(t: Tables, root: nat): (t': Tables) {
    Tables(map n | n in t.at && n.root != root :: t.at[n], map x | x in t.node && t.node[x].root != root :: t.node[x])
  }

  lemma BelowNone(t: Tables, n: Node)
    ensures BelowUpTo(t, n, 0) == {}
  {}

  lemma {:induction false} PrefixIn(t: Tables, n: Node, k: nat)
    requires TablesOk(t) && n in t.at && n.root != 0 && k <= |n.path|
    ensures Node(n.root, n.path[..k]) in t.at
    decreases |n.path|
  {
    if k == |n.path| {
      assert n.path[..k] == n.path && n == Node(n.root, n.path);
    } else {
      assert HasUp(n);
      PrefixIn(t, Up(n), k);
      assert Up(n).path[..k] == n.path[..k];
    }
  }

  /** The pages below one more entry: the page it points to, and those below that. */
  lemma BelowStep(t: Tables, n: Node, i: nat)
    requires TablesOk(t) && n.root != 0
    ensures var m := Node(n.root, n.path + [i]);
            BelowUpTo(t, n, i + 1) == BelowUpTo(t, n, i) + (if m in t.at then Below(t, m) + {t.at[m]} else {})
  {
    var m := Node(n.root, n.path + [i]);
    forall x | x in t.node && t.node[x].root == n.root
      ensures x in BelowUpTo(t, n, i + 1) <==> x in BelowUpTo(t, n, i) || m.path <= t.node[x].path
    {
      StepPath(n.path, i, t.node[x].path);
    }
    forall x | x in t.node && t.node[x].root == n.root && m.path <= t.node[x].path
      ensures m in t.at && (x in Below(t, m) || x == t.at[m])
    {
      PrefixIn(t, t.node[x], |m.path|);
      assert t.node[x].path[..|m.path|] == m.path;
      if |t.node[x].path| == |m.path| { assert t.node[x] == m; }
    }
  }

  lemma BelowApart(t: Tables, n: Node, i: nat)
    requires TablesOk(t) && Node(n.root, n.path + [i]) in t.at
    ensures var m := Node(n.root, n.path + [i]);
            Below(t, m) !! BelowUpTo(t, n, i) && Below(t, m) <= Below(t, n)
            && t.at[m] in t.node && t.at[m] !in BelowUpTo(t, n, i) && t.at[m] !in Below(t, m) && t.at[m] in Below(t, n)
  {}

  lemma BelowAll(t: Tables, n: Node)
    requires TablesOk(t) && n in t.at && n.root != 0
    ensures BelowUpTo(t, n, if n.path == [] then 256 else 512) == Below(t, n)
  {
    forall x | x in Below(t, n)
      ensures t.node[x].path[|n.path|] < if n.path == [] then 256 else 512
    {
      assert ValidNode(t.node[x]);
    }
  }

  lemma EntryBelow(mem: map<nat, seq<Entry>>, t: Tables, n: Node, i: nat)
    requires TablesOk(t) && Stored(mem, t) && n in t.at && n.root != 0 && i < 512 && (n.path == [] ==> i < 256)
    ensures t.at[n] in mem && |mem[t.at[n]]| == 512
    ensures var m := Node(n.root, n.path + [i]);
            && (|n.path| < 3 ==> mem[t.at[n]][i].page == if m in t.at then t.at[m] else 0)
            && (m in t.at ==> |n.path| < 3 && t.at[m] != 0)
  {
    assert NodeStored(mem, t, n);
    var m := Node(n.root, n.path + [i]);
    if |n.path| < 3 {
      DownUp(n, i);
    } else {
      assert m in t.at ==> ValidNode(m);
    }
  }

  lemma TopBelow(t: Tables, top: nat)
    requires TablesOk(t) && IsTop(t, top)
    ensures top != 0 && top in t.node && top !in Below(t, Node(top, []))
    ensures PagesOf(t, top) == Below(t, Node(top, [])) + {top} && PagesOf(t, top) <= t.node.Keys
  {
    forall x | x in PagesOf(t, top) && t.node[x].path == []
      ensures x == top
    {
      assert t.node[x] == Node(top, []);
    }
  }

  lemma TableRemoved(mem: map<nat, seq<Entry>>, free: set<nat>, t: Tables, top: nat, template: nat)
    requires Rep(mem, free, t) && IsTop(t, top) && IsTop(t, template) && top != template
    requires forall i :: 0 <= i < 256 ==> Node(template, [i]) !in t.at
    ensures Rep(mem, free + PagesOf(t, top), Without(t, top)) && IsTop(Without(t, top), template)
    ensures forall i :: 0 <= i < 256 ==> Node(template, [i]) !in Without(t, top).at
    ensures forall r, a :: IsAddress(a) && (r != top || 256 <= a[0]) ==>
              Lookup(mem, Without(t, top), r, a) == Lookup(mem, t, r, a)
  {
    hide Child, ValidNode;
    TopBelow(t, top);
    WithoutOk(t, top);
    forall n | n in Without(t, top).at
      ensures NodeStored(mem, Without(t, top), n)
    {
      WithoutStored(mem, t, top, n);
    }
    forall r, a | IsAddress(a) && (r != top || 256 <= a[0])
      ensures Lookup(mem, Without(t, top), r, a) == Lookup(mem, t, r, a)
    {
      assert a[..3][0] == a[0];
    }
  }

  lemma WithoutOk(t: Tables, top: nat)
    requires TablesOk(t) && top != 0
    ensures TablesOk(Without(t, top))
  {}

  lemma WithoutStored(mem: map<nat, seq<Entry>>, t: Tables, top: nat, n: Node)
    requires TablesOk(t) && Stored(mem, t) && n in Without(t, top).at && top != 0
    ensures NodeStored(mem, Without(t, top), n)
  {
    assert NodeStored(mem, t, n);
    forall j
      ensures Child(Without(t, top), n, j) == Child(t, n, j)
    {
      assert Down(n, j).root == 0 || Down(n, j).root == n.root;
    }
  }

  lemma TopFits(mem: map<nat, seq<Entry>>, t: Tables, top: nat)
    requires Stored(mem, t) && IsTop(t, top)
    ensures top in mem
  {
    assert NodeStored(mem, t, Node(top, []));
  }

  /** The pages of one table. */
  lemma {:induction false} RootedUp(t: Tables, n: Node)
    requires TablesOk(t) && n in t.at && n.root != 0
    ensures Node(n.root, []) in t.at
    decreases |n.path|
  {
    if n.path == [] {
      assert n == Node(n.root, []);
    } else {
      assert HasUp(n);
      RootedUp(t, Up(n));
    }
  }

  lemma AddTop(mem: map<nat, seq<Entry>>, free: set<nat>, t: Tables, template: nat, c: nat,
               mem': map<nat, seq<Entry>>, t': Tables)
    requires Rep(mem, free, t) && IsTop(t, template) && c in free && template in mem
    requires forall i :: 0 <= i < 256 ==> Node(template, [i]) !in t.at
    requires mem' == mem[c := mem[template]] && t' == WithTable(t, Node(c, []), c)
    ensures Rep(mem', free - {c}, t') && SameMap(mem, t, mem', t') && Grown(t, t') && Node(c, []) !in t.at
    ensures forall i :: 0 <= i < 256 ==> Node(template, [i]) !in t'.at
    ensures forall a :: IsAddress(a) && a[0] < 256 ==> Lookup(mem', t', c, a) == EMPTY
  {
    hide Lookup, Child;
    NoSuchTop(mem, free, t, c);
    TopTables(t, c);
    forall n | n in t'.at
      ensures NodeStored(mem', t', n)
    {
      if n == Node(c, []) {
        CopyStored(mem, t, template, c);
      } else {
        KeptStored(mem, t, template, c, n);
      }
    }
    forall r, a | IsAddress(a)
      ensures Lookup(mem', t', r, a) == Lookup(mem, t, r, a)
    {
      TopMap(mem, t, template, c, r, a);
    }
    forall a | IsAddress(a) && a[0] < 256
      ensures Lookup(mem', t', c, a) == EMPTY
    {
      TopMap(mem, t, template, c, c, a);
      NewIsEmpty(mem, t, c, a);
    }
  }

  lemma NoSuchTop(mem: map<nat, seq<Entry>>, free: set<nat>, t: Tables, c: nat)
    requires Rep(mem, free, t) && c in free
    ensures c != 0 && c !in t.node && forall n :: n in t.at ==> n.root != c
  {
    forall n | n in t.at
      ensures n.root != c
    {
      if n.root != 0 { RootedUp(t, n); }
    }
  }

  lemma TopTables(t: Tables, c: nat)
    requires TablesOk(t) && c != 0 && c !in t.node && Node(c, []) !in t.at
    ensures TablesOk(WithTable(t, Node(c, []), c))
  {}

  lemma TopChild(t: Tables, c: nat, n: Node, j: nat)
    ensures Child(WithTable(t, Node(c, []), c), n, j) == Child(t, n, j)
  {}

  lemma KeptStored(mem: map<nat, seq<Entry>>, t: Tables, template: nat, c: nat, n: Node)
    requires TablesOk(t) && Stored(mem, t) && c !in t.node && n in t.at && template in mem && Node(c, []) !in t.at
    ensures NodeStored(mem[c := mem[template]], WithTable(t, Node(c, []), c), n)
  {
    assert NodeStored(mem, t, n);
    forall j | 0 <= j < 512
      ensures Child(WithTable(t, Node(c, []), c), n, j) == Child(t, n, j)
    {
      TopChild(t, c, n, j);
    }
  }

  lemma CopyStored(mem: map<nat, seq<Entry>>, t: Tables, template: nat, c: nat)
    requires TablesOk(t) && Stored(mem, t) && IsTop(t, template) && template in mem
    requires forall i :: 0 <= i < 256 ==> Node(template, [i]) !in t.at
    requires forall n :: n in t.at ==> n.root != c
    ensures NodeStored(mem[c := mem[template]], WithTable(t, Node(c, []), c), Node(c, []))
  {
    assert NodeStored(mem, t, Node(template, []));
    forall j | 0 <= j < 512
      ensures Child(WithTable(t, Node(c, []), c), Node(c, []), j) == Child(t, Node(template, []), j)
    {
      TopChild(t, c, Node(c, []), j);
      assert [] + [j] == [j];
    }
  }

  lemma TopMap(mem: map<nat, seq<Entry>>, t: Tables, template: nat, c: nat, r: nat, a: seq<nat>)
    requires TablesOk(t) && Stored(mem, t) && c !in t.node && template in mem && IsAddress(a)
    requires Stored(mem[c := mem[template]], WithTable(t, Node(c, []), c))
    ensures Lookup(mem[c := mem[template]], WithTable(t, Node(c, []), c), r, a) == Lookup(mem, t, r, a)
  {
    PathLength(r, a);
  }

  lemma NewIsEmpty(mem: map<nat, seq<Entry>>, t: Tables, c: nat, a: seq<nat>)
    requires Stored(mem, t) && IsAddress(a) && a[0] < 256 && forall n :: n in t.at ==> n.root != c
    ensures Lookup(mem, t, c, a) == EMPTY
  {
    assert a[..3][0] == a[0];
  }

  /** Table pages have been added, and none has moved. */
  ghost predicate Grown(t: Tables, t': Tables) {
    forall n :: n in t.at ==> Holds(t', n, t.at[n])
  }

  lemma Nonzero(mem: map<nat, seq<Entry>>, t: Tables, n: Node, i: nat)
    requires TablesOk(t) && Stored(mem, t) && n in t.at && |n.path| < 3 && i < 512
    ensures t.at[n] in mem && |mem[t.at[n]]| == 512 && t.at[n] in t.node && mem[t.at[n]][i].page == Child(t, n, i)
    ensures Down(n, i) in t.at <==> Child(t, n, i) != 0
  {
    assert NodeStored(mem, t, n);
  }

  lemma SameMapReflexive(mem: map<nat, seq<Entry>>, t: Tables)
    requires Stored(mem, t)
    ensures SameMap(mem, t, mem, t) && Grown(t, t)
  {}

  lemma SameMapTransitive(mem: map<nat, seq<Entry>>, t: Tables, mem1: map<nat, seq<Entry>>, t1: Tables,
                          mem2: map<nat, seq<Entry>>, t2: Tables)
    requires Stored(mem, t) && Stored(mem1, t1) && Stored(mem2, t2)
    requires SameMap(mem, t, mem1, t1) && SameMap(mem1, t1, mem2, t2)
    ensures SameMap(mem, t, mem2, t2)
  {
    hide Stored, Lookup, IsAddress;
  }

  lemma GrownTransitive(t: Tables, t1: Tables, t2: Tables)
    requires Grown(t, t1) && Grown(t1, t2)
    ensures Grown(t, t2)
  {}

  lemma UpdatedAfterSame(mem: map<nat, seq<Entry>>, t: Tables, mem1: map<nat, seq<Entry>>,
                         mem2: map<nat, seq<Entry>>, t1: Tables, top: nat, a: seq<nat>, e: Entry)
    requires Stored(mem, t) && Stored(mem1, t1) && Stored(mem2, t1) && IsAddress(a)
    requires SameMap(mem, t, mem1, t1) && Updated(mem1, t1, mem2, t1, top, a, e)
    ensures Updated(mem, t, mem2, t1, top, a, e)
  {
    hide Stored, Lookup, SamePlace;
  }

  lemma TemplateKept(t: Tables, template: nat, n: Node, i: nat, c: nat)
    requires (forall j :: 0 <= j < 256 ==> Node(template, [j]) !in t.at) && (n == Node(template, []) ==> 256 <= i)
    requires TablesOk(t) && IsGap(t, n, i)
    ensures forall j :: 0 <= j < 256 ==> Node(template, [j]) !in WithTable(t, Down(n, i), c).at
    ensures Grown(t, WithTable(t, Down(n, i), c))
  {
    GapIsOwn(t, n, i);
    forall j | 0 <= j < 256
      ensures Node(template, [j]) != Down(n, i)
    {
      assert Up(Node(template, [j])).path == [];
    }
  }

  /** Only the first step below a top level can be a step below the template. */
  lemma NeverTemplate(template: nat, top: nat, a: seq<nat>)
    requires IsAddress(a)
    ensures NodeOf(top, a[..1]) != Node(template, []) && NodeOf(top, a[..2]) != Node(template, [])
  {
    AddressSteps(top, a);
  }

  lemma LeafPage(mem: map<nat, seq<Entry>>, t: Tables, top: nat, a: seq<nat>)
    requires TablesOk(t) && Stored(mem, t) && IsAddress(a) && IsTop(t, top)
    ensures top != 0
    ensures var n := NodeOf(top, a[..3]);
            n in t.at ==>
              t.at[n] != 0 && t.at[n] in mem && |mem[t.at[n]]| == 512 && Lookup(mem, t, top, a) == mem[t.at[n]][a[3]]
    ensures NodeOf(top, a[..3]) !in t.at ==> Lookup(mem, t, top, a) == EMPTY
  {
    var n := NodeOf(top, a[..3]);
    if n in t.at { assert NodeStored(mem, t, n); }
  }

  lemma MissingIsEmpty(mem: map<nat, seq<Entry>>, free: set<nat>, t: Tables, top: nat, a: seq<nat>)
    requires Rep(mem, free, t) && IsAddress(a) && IsTop(t, top) && PageAt(t, NodeOf(top, a[..3])) == 0
    ensures Updated(mem, t, mem, t, top, a, EMPTY)
  {
    hide Stored;
    assert NodeOf(top, a[..3]) !in t.at;
    forall r, b | IsAddress(b) && SamePlace(r, b, top, a)
      ensures Lookup(mem, t, r, b) == EMPTY
    {
      assert top != 0;
      SameNode(r, b, top, a);
    }
  }

  ghost predicate IsTop(t: Tables, top: nat) {
    Holds(t, Node(top, []), top)
  }

  ghost predicate Holds(t: Tables, n: Node, page: nat) {
    n in t.at && t.at[n] == page
  }

  ghost function PageAt(t: Tables, n: Node): (page: nat) {
    if n in t.at then t.at[n] else 0
  }

  lemma AddressSteps(top: nat, a: seq<nat>)
    requires IsAddress(a)
    ensures |a| == 4 && a[0] < 512 && a[1] < 512 && a[2] < 512 && a[3] < 512
    ensures Down(Node(top, []), a[0]) == NodeOf(top, a[..1])
    ensures Down(NodeOf(top, a[..1]), a[1]) == NodeOf(top, a[..2])
    ensures Down(NodeOf(top, a[..2]), a[2]) == NodeOf(top, a[..3])
    ensures |NodeOf(top, a[..1]).path| == 1 && |NodeOf(top, a[..2]).path| == 2 && |NodeOf(top, a[..3]).path| == 3
  {
    assert [] + [a[0]] == a[..1] && a[..1] + [a[1]] == a[..2] && a[..2] + [a[2]] == a[..3];
    assert a[..1][0] == a[0] && a[..2][0] == a[0] && a[..3][0] == a[0];
  }

  /** A missing table on the way means that everything below is missing. */
  lemma Missing(t: Tables, top: nat, a: seq<nat>)
    requires TablesOk(t) && IsAddress(a) && IsTop(t, top)
    ensures NodeOf(top, a[..1]) !in t.at ==> NodeOf(top, a[..2]) !in t.at
    ensures NodeOf(top, a[..2]) !in t.at ==> NodeOf(top, a[..3]) !in t.at
    ensures forall n :: n in t.at ==> t.at[n] != 0
  {
    AddressSteps(top, a);
    var p, q := NodeOf(top, a[..1]), NodeOf(top, a[..2]);
    assert ValidNode(p) && ValidNode(q);
    if p !in t.at { NoneBelow(t, p, a[1]); }
    if q !in t.at { NoneBelow(t, q, a[2]); }
  }
}
