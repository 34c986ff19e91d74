/**
 The ranges of an address space in kernel-src/mm/vmm.c: first-fit search and insertion with
 coalescing, over the forward chain of ranges.
 */
module AddressSpace {

  datatype Range = Range(start: nat, size: nat, flags: nat, mmuflags: nat, vnode: nat, offset: nat)

  function Top(r: Range): (x: nat) {
    r.start + r.size
  }

  /** VMM_FLAGS_FILE. */
  predicate IsFile(flags: nat) {
    flags / 8 % 2 == 1
  }

  /** What a range says about an address: for a file, also which byte of which file it shows. */
  datatype Info = Info(flags: nat, mmuflags: nat, vnode: nat, byte: nat)
  datatype View = Unmapped | Mapped(info: Info)

  function InfoAt(r: Range, x: nat): (i: Info)
    requires r.start <= x
  {
    if IsFile(r.flags) then Info(r.flags, r.mmuflags, r.vnode, r.offset + (x - r.start))
    else Info(r.flags, r.mmuflags, 0, 0)
  }

  /** The map from addresses to what they show. */
  function Seen(rs: seq<Range>, x: nat): (v: View) {
    if rs == [] then Unmapped
    else if rs[0].start <= x < Top(rs[0]) then Mapped(InfoAt(rs[0], x))
    else Seen(rs[1..], x)
  }

  ghost predicate Before(r: Range, q: Range) {
    Top(r) <= q.start
  }

  /** The chain is sorted and disjoint, and within the space. */
  ghost predicate Sorted(rs: seq<Range>, lo: nat, hi: nat) {
    && (forall i :: 0 <= i < |rs| ==> lo <= rs[i].start && 0 < rs[i].size && Top(rs[i]) <= hi)
    && (forall i, j :: 0 <= i < j < |rs| ==> Before(rs[i], rs[j]))
  }

  /** An address is in at most one range, and Seen finds it. */
  lemma {:induction false} SeenAt(rs: seq<Range>, lo: nat, hi: nat, k: nat, x: nat)
    requires Sorted(rs, lo, hi) && k < |rs| && rs[k].start <= x < Top(rs[k])
    ensures Seen(rs, x) == Mapped(InfoAt(rs[k], x))
  {
    if k > 0 {
      assert Before(rs[0], rs[k]);
      TailSorted(rs, lo, hi);
      SeenAt(rs[1..], lo, hi, k - 1, x);
    }
  }

  lemma TailSorted(rs: seq<Range>, lo: nat, hi: nat)
    requires Sorted(rs, lo, hi) && rs != []
    ensures Sorted(rs[1..], lo, hi)
  {}

  lemma {:induction false} SeenNowhere(rs: seq<Range>, x: nat)
    requires forall i :: 0 <= i < |rs| ==> !(rs[i].start <= x < Top(rs[i]))
    ensures Seen(rs, x).Unmapped?
  {
    if rs != [] { SeenNowhere(rs[1..], x); }
  }

  lemma {:induction false} SeenIn(rs: seq<Range>, x: nat) returns (k: nat)
    requires Seen(rs, x).Mapped?
    ensures k < |rs| && rs[k].start <= x < Top(rs[k])
  {
    if rs[0].start <= x < Top(rs[0]) {
      k := 0;
    } else {
      var j := SeenIn(rs[1..], x);
      k := j + 1;
    }
  }

  /** No range meets [x, x + size). */
  ghost predicate IsGap(rs: seq<Range>, x: nat, size: nat) {
    forall i :: 0 <= i < |rs| ==> x + size <= rs[i].start || Top(rs[i]) <= x
  }

  /** The addresses that getfreerange may return. */
  ghost predicate Fits(rs: seq<Range>, hi: nat, hint: nat, size: nat, x: nat) {
    hint <= x && x + size <= hi && IsGap(rs, x, size)
  }

  // ----- First fit

  /** getrange. */
  method GetRange(rs: seq<Range>, lo: nat, hi: nat, x: nat) returns (found: bool, k: nat)
    requires Sorted(rs, lo, hi)
    ensures found ==> k < |rs| && rs[k].start <= x < Top(rs[k]) && Seen(rs, x) == Mapped(InfoAt(rs[k], x))
    ensures !found ==> Seen(rs, x).Unmapped?
  {
    k := 0;
    while k < |rs| && !(rs[k].start <= x < Top(rs[k]))
      invariant k <= |rs| && forall i :: 0 <= i < k ==> !(rs[i].start <= x < Top(rs[i]))
    {
      k := k + 1;
    }
    found := k < |rs|;
    if found {
      SeenAt(rs, lo, hi, k, x);
    } else {
      SeenNowhere(rs, x);
    }
  }

  datatype Place = Nowhere | At(x: nat)

  /** The ranges up to k end at or before x, and nothing below x fits. */
  ghost predicate Searched(rs: seq<Range>, hi: nat, hint: nat, size: nat, k: nat, x: nat) {
    && hint <= x && (forall i :: 0 <= i < k && i < |rs| ==> Top(rs[i]) <= x)
    && (forall y :: hint <= y < x ==> !Fits(rs, hi, hint, size, y))
  }

  /** The answer that a caller wants: the lowest address at or above the hint with room, and nothing
      only if there is none. */
  ghost predicate FirstFit(rs: seq<Range>, hi: nat, hint: nat, size: nat, r: Place) {
    match r
    case At(x) => Fits(rs, hi, hint, size, x) && forall y :: Fits(rs, hi, hint, size, y) ==> x <= y
    case Nowhere => forall y :: !Fits(rs, hi, hint, size, y)
  }

  /** On an empty chain getfreerange returns the hint without looking at the size. */
  ghost predicate Looked(rs: seq<Range>, hi: nat, hint: nat, size: nat) {
    rs != [] || hint + size <= hi
  }

  lemma EmptyChain(hi: nat, hint: nat, size: nat)
    ensures FirstFit([], hi, hint, size, At(hint)) <==> hint + size <= hi
  {}

  /** getfreerange: its answer is the first fit exactly if there is a range or the size fits above the
      hint. */
  method GetFreeRange(rs: seq<Range>, lo: nat, hi: nat, hint: nat, size: nat) returns (r: Place)
    requires Sorted(rs, lo, hi) && lo <= hint <= hi && 0 < size
    ensures FirstFit(rs, hi, hint, size, r) <==> Looked(rs, hi, hint, size)
    ensures rs == [] ==> r == At(hint)
  {
    hide IsGap, Fits;
    if rs == [] {
      EmptyChain(hi, hint, size);
      return At(hint);
    }
    if rs[0].start != lo && hint < rs[0].start && rs[0].start - hint >= size {
      FitsBefore(rs, lo, hi, hint, size, 0, hint);
      LowestIs(rs, hi, hint, size, 0, hint);
      return At(hint);
    }
    var x: nat, k: nat := hint, 0;
    if hint < rs[0].start { NotBeforeFirst(rs, lo, hi, hint, size); }
    while k + 1 < |rs|
      invariant k < |rs| && Searched(rs, hi, hint, size, k, x) && (x < rs[k].start ==> rs[k].start - x < size)
      invariant x <= hi
    {
      PassRange(rs, lo, hi, hint, size, k, x);
      if x < Top(rs[k]) {
        x := Top(rs[k]);
      }
      if x < rs[k + 1].start && rs[k + 1].start - x >= size {
        FitsBefore(rs, lo, hi, hint, size, k + 1, x);
        LowestIs(rs, hi, hint, size, k + 1, x);
        return At(x);
      }
      k := k + 1;
    }
    PassRange(rs, lo, hi, hint, size, k, x);
    if x < Top(rs[k]) {
      x := Top(rs[k]);
    }
    LowestIs(rs, hi, hint, size, k + 1, x);
    if x != hi && hi - x >= size {
      FitsAfter(rs, hi, hint, size, x);
      return At(x);
    }
    NothingFits(rs, hi, hint, size, x);
    return Nowhere;
  }

  lemma FitsBefore(rs: seq<Range>, lo: nat, hi: nat, hint: nat, size: nat, k: nat, x: nat)
    requires Sorted(rs, lo, hi) && k < |rs| && hint <= x && x + size <= rs[k].start
    requires forall i :: 0 <= i < k ==> Top(rs[i]) <= x
    ensures Fits(rs, hi, hint, size, x)
  {
    forall i | 0 <= i < |rs|
      ensures x + size <= rs[i].start || Top(rs[i]) <= x
    {
      assert k < i ==> Before(rs[k], rs[i]);
    }
  }

  lemma FitsAfter(rs: seq<Range>, hi: nat, hint: nat, size: nat, x: nat)
    requires hint <= x && x + size <= hi && forall i :: 0 <= i < |rs| ==> Top(rs[i]) <= x
    ensures Fits(rs, hi, hint, size, x)
  {}

  lemma NotBeforeFirst(rs: seq<Range>, lo: nat, hi: nat, hint: nat, size: nat)
    requires Sorted(rs, lo, hi) && rs != [] && lo <= hint < rs[0].start
    ensures rs[0].start != lo
  {}

  /** Moving on to the top of a range that is not fully below x skips no address that fits. */
  lemma PassRange(rs: seq<Range>, lo: nat, hi: nat, hint: nat, size: nat, k: nat, x: nat)
    requires Sorted(rs, lo, hi) && k < |rs| && Searched(rs, hi, hint, size, k, x)
    requires (x < rs[k].start ==> rs[k].start - x < size) && 0 < size
    ensures Searched(rs, hi, hint, size, k + 1, if x < Top(rs[k]) then Top(rs[k]) else x)
    ensures k + 1 < |rs| ==> Top(rs[k]) <= rs[k + 1].start
  {
    forall y | x <= y < Top(rs[k])
      ensures !Fits(rs, hi, hint, size, y)
    {
      assert !(y + size <= rs[k].start || Top(rs[k]) <= y);
    }
    if k + 1 < |rs| { assert Before(rs[k], rs[k + 1]); }
  }

  lemma LowestIs(rs: seq<Range>, hi: nat, hint: nat, size: nat, k: nat, x: nat)
    requires Searched(rs, hi, hint, size, k, x)
    ensures forall y :: Fits(rs, hi, hint, size, y) ==> x <= y
  {
    forall y: nat | Fits(rs, hi, hint, size, y)
      ensures x <= y
    {
      assert hint <= y;
    }
  }

  lemma NothingFits(rs: seq<Range>, hi: nat, hint: nat, size: nat, x: nat)
    requires (forall y :: Fits(rs, hi, hint, size, y) ==> x <= y) && (x == hi || hi < x + size) && 0 < size
    ensures forall y :: !Fits(rs, hi, hint, size, y)
  {}

  // ----- Insertion

  /** Two ranges that insertrange joins: adjacent, alike, and for files also contiguous. */
  predicate Joinable(r: Range, q: Range) {
    && Top(r) == q.start && r.flags == q.flags && r.mmuflags == q.mmuflags
    && (!IsFile(r.flags) || (r.vnode == q.vnode && r.offset + r.size == q.offset))
  }

  /** No two neighbours could be joined. */
  ghost predicate Coalesced(rs: seq<Range>) {
    forall i :: 0 <= i < |rs| - 1 ==> Apart(rs, i)
  }

  ghost predicate Apart(rs: seq<Range>, i: nat)
    requires i + 1 < |rs|
  {
    !Joinable(rs[i], rs[i + 1])
  }

  /** Three parts of a chain are coalesced together exactly if each is, and across the two seams. */
  lemma CoalescedParts(p: seq<Range>, r: Range, q: seq<Range>)
    ensures Coalesced(p + [r] + q)
       <==> Coalesced(p) && Coalesced(q) && (p != [] ==> !Joinable(p[|p| - 1], r)) && (q != [] ==> !Joinable(r, q[0]))
  {
    var rs := p + [r] + q;
    assert forall i :: 0 <= i < |p| ==> rs[i] == p[i];
    assert forall i :: |p| < i < |rs| ==> rs[i] == q[i - |p| - 1];
    if Coalesced(rs) {
      forall i | 0 <= i < |p| - 1
        ensures Apart(p, i)
      {
        assert Apart(rs, i);
      }
      forall i | 0 <= i < |q| - 1
        ensures Apart(q, i)
      {
        assert Apart(rs, i + |p| + 1);
      }
      assert p != [] ==> Apart(rs, |p| - 1);
      assert q != [] ==> Apart(rs, |p|);
    } else {
      var i :| 0 <= i < |rs| - 1 && !Apart(rs, i);
      assert i < |p| - 1 ==> !Apart(p, i);
      assert |p| < i ==> !Apart(q, i - |p| - 1);
    }
  }

  function Join(r: Range, q: Range): (j: Range) {
    r.(size := r.size + q.size)
  }

  /** A joined range shows what the two showed. */
  lemma JoinShows(r: Range, q: Range, x: nat)
    requires Joinable(r, q) && r.start <= x < Top(q)
    ensures x < Top(Join(r, q)) && InfoAt(Join(r, q), x) == if x < Top(r) then InfoAt(r, x) else InfoAt(q, x)
  {}

  ghost predicate SameSeen(rs: seq<Range>, rs': seq<Range>) {
    forall x: nat :: Seen(rs', x) == Seen(rs, x)
  }

  /** What a space shows after a range is added. */
  ghost predicate Added(rs: seq<Range>, rs': seq<Range>, r: Range) {
    forall x: nat :: Seen(rs', x) == if r.start <= x < Top(r) then Mapped(InfoAt(r, x)) else Seen(rs, x)
  }

  lemma {:induction false} SeenJoin(p: seq<Range>, q: seq<Range>, x: nat)
    ensures Seen(p + q, x) == if Seen(p, x).Mapped? then Seen(p, x) else Seen(q, x)
  {
    if p == [] {
      assert p + q == q;
    } else {
      assert (p + q)[1..] == p[1..] + q;
      SeenJoin(p[1..], q, x);
    }
  }

  /** A new range between two parts of a chain. */
  lemma InsertSorted(p: seq<Range>, q: seq<Range>, lo: nat, hi: nat, r: Range)
    requires Sorted(p + q, lo, hi) && lo <= r.start && 0 < r.size && Top(r) <= hi
    requires (forall i :: 0 <= i < |p| ==> Top(p[i]) <= r.start) && (forall i :: 0 <= i < |q| ==> Top(r) <= q[i].start)
    ensures Sorted(p + [r] + q, lo, hi) && Added(p + q, p + [r] + q, r)
  {
    var all, rs := p + q, p + [r] + q;
    assert forall i :: 0 <= i < |p| ==> rs[i] == p[i] == all[i];
    assert forall i :: |p| < i < |rs| ==> rs[i] == q[i - |p| - 1] == all[i - 1];
    forall i, j | 0 <= i < j < |rs|
      ensures Before(rs[i], rs[j])
    {
      if i != |p| && j != |p| {
        assert Before(all[if i < |p| then i else i - 1], all[if j < |p| then j else j - 1]);
      }
    }
    forall x: nat
      ensures Seen(rs, x) == if r.start <= x < Top(r) then Mapped(InfoAt(r, x)) else Seen(all, x)
    {
      InsertSeen(p, q, lo, hi, r, x);
    }
  }

  lemma InsertSeen(p: seq<Range>, q: seq<Range>, lo: nat, hi: nat, r: Range, x: nat)
    requires forall i :: 0 <= i < |p| ==> Top(p[i]) <= r.start
    ensures Seen(p + [r] + q, x) == if r.start <= x < Top(r) then Mapped(InfoAt(r, x)) else Seen(p + q, x)
  {
    SeenJoin(p, q, x);
    SeenJoin(p + [r], q, x);
    SeenJoin(p, [r], x);
    assert [r][1..] == [];
    if r.start <= x < Top(r) { SeenNowhere(p, x); }
  }

  /** Two neighbours become one. */
  lemma JoinSorted(p: seq<Range>, r: Range, s: Range, q: seq<Range>, lo: nat, hi: nat)
    requires Sorted(p + [r, s] + q, lo, hi) && Joinable(r, s)
    ensures Sorted(p + [Join(r, s)] + q, lo, hi) && SameSeen(p + [r, s] + q, p + [Join(r, s)] + q)
  {
    var all, j := p + [r, s] + q, Join(r, s);
    var rs := p + [j] + q;
    assert all[|p|] == r && all[|p| + 1] == s;
    assert forall i :: 0 <= i < |p| ==> rs[i] == all[i];
    assert forall i :: |p| < i < |rs| ==> rs[i] == all[i + 1];
    forall a, b | 0 <= a < b < |rs|
      ensures Before(rs[a], rs[b])
    {
      assert Before(all[if a <= |p| then a else a + 1], all[if b <= |p| then b else b + 1]);
      if a == |p| { assert Before(all[|p| + 1], all[b + 1]); }
    }
    forall x: nat
      ensures Seen(rs, x) == Seen(all, x)
    {
      JoinSeen(p, r, s, q, x);
    }
  }

  lemma JoinSeen(p: seq<Range>, r: Range, s: Range, q: seq<Range>, x: nat)
    requires Joinable(r, s)
    ensures Seen(p + [Join(r, s)] + q, x) == Seen(p + [r, s] + q, x)
  {
    var j := Join(r, s);
    SeenJoin(p + [j], q, x);
    SeenJoin(p, [j], x);
    SeenJoin(p + [r, s], q, x);
    SeenJoin(p, [r, s], x);
    assert [j][1..] == [] && [r, s][1..] == [s] && [s][1..] == [];
    if r.start <= x < Top(s) { JoinShows(r, s, x); }
  }

  /** Where insertrange links a new range: everything before k ends at or before it, and everything
      from k starts at or after its end. */
  method FindPosition(rs: seq<Range>, lo: nat, hi: nat, r: Range) returns (k: nat)
    requires Sorted(rs, lo, hi) && rs != [] && 0 < r.size && IsGap(rs, r.start, r.size)
    ensures k <= |rs| && (forall i :: 0 <= i < k ==> Top(rs[i]) <= r.start)
    ensures (forall i :: k <= i < |rs| ==> Top(r) <= rs[i].start)
  {
    if Top(r) <= rs[0].start {
      assert forall i :: 0 < i < |rs| ==> Before(rs[0], rs[i]);
      return 0;
    }
    k := 0;
    while k + 1 < |rs| && !(r.start >= Top(rs[k]) && r.start < rs[k + 1].start)
      invariant k < |rs| && forall i :: 0 <= i <= k ==> Top(rs[i]) <= r.start
    {
      k := k + 1;
    }
    k := k + 1;
    assert forall i :: k < i < |rs| ==> Before(rs[k], rs[i]);
  }

  /** insertrange: the chain stays sorted, and shows the new range and otherwise what it showed. */
  method InsertRange(rs: seq<Range>, lo: nat, hi: nat, r: Range) returns (rs': seq<Range>)
    requires Sorted(rs, lo, hi) && lo <= r.start && 0 < r.size && Top(r) <= hi && IsGap(rs, r.start, r.size)
    ensures Sorted(rs', lo, hi) && Added(rs, rs', r)
    ensures Coalesced(rs) ==> Coalesced(rs')
  {
    hide Sorted, Added, SameSeen, Seen;
    if rs == [] {
      InsertSorted([], [], lo, hi, r);
      assert [] + [] == rs && [] + [r] + [] == [r];
      return [r];
    }
    var k := FindPosition(rs, lo, hi, r);
    var before, after, new1 := rs[..k], rs[k..], r;
    assert before + after == rs;
    CoalescedSplit(rs, k);
    InsertSorted(before, after, lo, hi, r);
    new1, after := JoinNext(before, new1, after, lo, hi);
    AddedThenSame(rs, before + [r] + rs[k..], before + [new1] + after, r);
    rs' := JoinPrevious(before, new1, after, lo, hi);
    AddedThenSame(rs, before + [new1] + after, rs', r);
  }

  method JoinNext(before: seq<Range>, r: Range, after: seq<Range>, lo: nat,
                  hi: nat) returns (r': Range, after': seq<Range>)
    requires Sorted(before + [r] + after, lo, hi)
    ensures Sorted(before + [r'] + after', lo, hi) && SameSeen(before + [r] + after, before + [r'] + after')
    ensures Coalesced(after) ==> Coalesced(after') && (after' != [] ==> !Joinable(r', after'[0]))
  {
    hide Sorted, Seen;
    SameSeenReflexive(before + [r] + after);
    r', after' := r, after;
    if after != [] && Joinable(r, after[0]) {
      assert before + [r] + after == before + [r, after[0]] + after[1..];
      JoinSorted(before, r, after[0], after[1..], lo, hi);
      CoalescedTail(after);
      r', after' := Join(r, after[0]), after[1..];
    }
  }

  method JoinPrevious(before: seq<Range>, r: Range, after: seq<Range>, lo: nat, hi: nat) returns (rs: seq<Range>)
    requires Sorted(before + [r] + after, lo, hi)
    ensures Sorted(rs, lo, hi) && SameSeen(before + [r] + after, rs)
    ensures Coalesced(before) && Coalesced(after) && (after != [] ==> !Joinable(r, after[0])) ==> Coalesced(rs)
  {
    hide Sorted, Seen, Coalesced;
    SameSeenReflexive(before + [r] + after);
    CoalescedParts(before, r, after);
    rs := before + [r] + after;
    if before != [] && Joinable(before[|before| - 1], r) {
      var last, rest := before[|before| - 1], before[..|before| - 1];
      assert rs == rest + [last, r] + after;
      JoinSorted(rest, last, r, after, lo, hi);
      CoalescedParts(rest, last, []);
      CoalescedParts(rest, Join(last, r), after);
      assert rest + [last] + [] == before;
      rs := rest + [Join(last, r)] + after;
    }
  }

  lemma SameSeenReflexive(rs: seq<Range>)
    ensures SameSeen(rs, rs)
  {}

  lemma CoalescedSplit(rs: seq<Range>, k: nat)
    requires k <= |rs|
    ensures Coalesced(rs) ==> Coalesced(rs[..k]) && Coalesced(rs[k..])
  {
    if Coalesced(rs) {
      var p, q := rs[..k], rs[k..];
      forall i | 0 <= i < |p| - 1
        ensures Apart(p, i)
      {
        assert Apart(rs, i);
      }
      forall i | 0 <= i < |q| - 1
        ensures Apart(q, i)
      {
        assert Apart(rs, i + k);
      }
    }
  }

  /** Joining a range to the first of a coalesced chain leaves nothing to join. */
  lemma CoalescedTail(after: seq<Range>)
    requires after != []
    ensures Coalesced(after) ==> Coalesced(after[1..]) && (|after| > 1 ==> !Joinable(after[0], after[1]))
  {
    CoalescedSplit(after, 1);
    assert Coalesced(after) && |after| > 1 ==> Apart(after, 0);
  }

  lemma AddedThenSame(rs: seq<Range>, rs1: seq<Range>, rs2: seq<Range>, r: Range)
    requires Added(rs, rs1, r) && SameSeen(rs1, rs2)
    ensures Added(rs, rs2, r)
  {
    hide Seen;
  }

  /** The ranges of one address space. */
  class Space {
    const lo: nat
    const hi: nat
    var ranges: seq<Range>

    ghost predicate Valid()
      reads this
    {
      Sorted(ranges, lo, hi)
    }

    constructor (lo: nat, hi: nat)
      ensures Valid() && ranges == [] && this.lo == lo && this.hi == hi
    {
      this.lo, this.hi, ranges := lo, hi, [];
    }

    /** vmm_map without REPLACE, where a range can be allocated. The new range is at the lowest
        address with room, and it is the only change. The chain stays within the space exactly if
        it was not empty or the size fits above the hint. */
    method Map(hint: nat, size: nat, exact: bool, flags: nat, mmuflags: nat, vnode: nat, offset: nat)
      returns (r: Place)
      requires Valid() && lo <= hint < hi && 0 < size
      modifies this`ranges
      ensures Valid() <==> Looked(old(ranges), hi, hint, size)
      ensures Coalesced(old(ranges)) ==> Coalesced(ranges)
      ensures r.At? ==> Added(old(ranges), ranges, Range(r.x, size, flags, mmuflags, vnode, offset))
      ensures exact && r.At? ==> r.x == hint
      ensures r.At? && Looked(old(ranges), hi, hint, size) ==> FirstFit(old(ranges), hi, hint, size, r)
      ensures r.Nowhere? ==>
                ranges == old(ranges) && forall y :: Fits(old(ranges), hi, hint, size, y) ==> exact && hint < y
    {
      hide Added, Coalesced;
      r := GetFreeRange(ranges, lo, hi, hint, size);
      if r.Nowhere? || (exact && r.x != hint) {
        return Nowhere;
      }
      var top := if ranges == [] then r.x + size else hi;
      ranges := InsertRange(ranges, lo, top, Range(r.x, size, flags, mmuflags, vnode, offset));
      if old(ranges) == [] {
        OnlyRange(ranges, lo, top, hi, Range(r.x, size, flags, mmuflags, vnode, offset));
      }
    }
  }

  /** What a chain that shows one range says about the end of the space. */
  lemma OnlyRange(rs: seq<Range>, lo: nat, top: nat, hi: nat, r: Range)
    requires Sorted(rs, lo, top) && Added([], rs, r) && top == Top(r) && 0 < r.size
    ensures Sorted(rs, lo, hi) <==> Top(r) <= hi
  {
    if Top(r) <= hi {
      assert Sorted(rs, lo, hi);
    } else {
      assert Seen(rs, Top(r) - 1).Mapped?;
      var k := SeenIn(rs, Top(r) - 1);
      assert !Sorted(rs, lo, hi);
    }
  }

  /** A fresh space of two pages, asked for four: the address after its end becomes mapped. */
  method MapPastEnd() returns (space: Space, r: Place)
    ensures fresh(space) && r == At(0x1000) && space.hi == 0x3000 && Seen(space.ranges, space.hi).Mapped?
    ensures !space.Valid()
  {
    space := new Space(0x1000, 0x3000);
    r := space.Map(0x1000, 0x4000, true, 0, 0, 0, 0);
  }
}
