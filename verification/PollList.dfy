/**
 The list of entries registered with a poll header (kernel-src/io/poll.c), doubly linked through
 the entries. Entries are numbered from one; zero stands for NULL.
 */
module PollList {
  import opened Links

  /** The entries of a list that are in a set, and those that are not, in order. */
  function Among(q: seq<nat>, won: set<nat>): (r: seq<nat>) {
    if q == [] then [] else if q[0] in won then [q[0]] + Among(q[1..], won) else Among(q[1..], won)
  }

  function NotAmong(q: seq<nat>, won: set<nat>): (r: seq<nat>) {
    if q == [] then [] else if q[0] in won then NotAmong(q[1..], won) else [q[0]] + NotAmong(q[1..], won)
  }

  function Reverse(q: seq<nat>): (r: seq<nat>) {
    if q == [] then [] else Reverse(q[1..]) + [q[0]]
  }

  /** What poll_event leaves: the entries that were woken, the last one first, and then the others
      likewise. */
  function AfterEvent(q: seq<nat>, won: set<nat>): (r: seq<nat>) {
    Reverse(Among(q, won)) + Reverse(NotAmong(q, won))
  }

  lemma {:induction false} ReverseMembers(q: seq<nat>)
    ensures |Reverse(q)| == |q| && forall t :: t in Reverse(q) <==> t in q
  {
    if q != [] {
      ReverseMembers(q[1..]);
      assert q == [q[0]] + q[1..];
    }
  }

  lemma {:induction false} AmongMembers(q: seq<nat>, won: set<nat>)
    ensures |Among(q, won)| + |NotAmong(q, won)| == |q|
    ensures forall t :: t in Among(q, won) <==> t in q && t in won
    ensures forall t :: t in NotAmong(q, won) <==> t in q && t !in won
  {
    if q != [] {
      AmongMembers(q[1..], won);
      assert q == [q[0]] + q[1..];
    }
  }

  /** poll_event keeps the set of registered entries: the same members, and as many. */
  lemma EventKeepsEntries(q: seq<nat>, won: set<nat>)
    ensures |AfterEvent(q, won)| == |q| && forall t :: t in AfterEvent(q, won) <==> t in q
  {
    AmongMembers(q, won);
    ReverseMembers(Among(q, won));
    ReverseMembers(NotAmong(q, won));
  }

  // ----- The descriptors of the entries

  /** The descriptors whose lock and whose wakeuplock are held, and the entry recorded in a descriptor
      that has its event. */
  datatype Descriptors = Descriptors(locked: set<nat>, waking: set<nat>, event: map<nat, nat>)

  /** What poll_event does for entry t of descriptor x: the first matching event is recorded, and the
      entry wins if both locks can be taken. The first one stays taken if the second cannot. */
  function Offer(d: Descriptors, x: nat, t: nat, matches: bool): (r: (Descriptors, bool)) {
    if !matches then (d, false) else
    var d1 := if x in d.event then d else d.(event := d.event[x := t]);
    if x in d.locked then (d1, false)
    else if x in d.waking then (d1.(locked := d.locked + {x}), false)
    else (d1.(locked := d.locked + {x}, waking := d.waking + {x}), true)
  }

  /** The same for a list of entries: the descriptors afterwards, and the entries that win. */
  function Offers(d: Descriptors, q: seq<nat>, desc: Link, matching: set<nat>): (r: (Descriptors, set<nat>))
    decreases |q|
  {
    if q == [] then (d, {}) else
    var (d1, wins) := Offer(d, Get(desc, q[0]), q[0], q[0] in matching);
    var (d2, won) := Offers(d1, q[1..], desc, matching);
    (d2, if wins then {q[0]} + won else won)
  }

  lemma {:induction false} OffersBound(d: Descriptors, q: seq<nat>, desc: Link, matching: set<nat>)
    ensures var (d', won) := Offers(d, q, desc, matching);
            && (forall t :: t in won ==>
                  t in q && t in matching && Get(desc, t) !in d.locked && Get(desc, t) !in d.waking)
            && d.locked <= d'.locked && d'.waking == d.waking + Descs(won, desc)
            && (forall t, u :: t in won && u in won && t != u ==> Get(desc, t) != Get(desc, u))
    decreases |q|
  {
    if q != [] {
      var (d1, wins) := Offer(d, Get(desc, q[0]), q[0], q[0] in matching);
      OffersBound(d1, q[1..], desc, matching);
      var won := Offers(d1, q[1..], desc, matching).1;
      assert q == [q[0]] + q[1..];
      assert Descs({q[0]} + won, desc) == {Get(desc, q[0])} + Descs(won, desc);
    }
  }

  function Descs(won: set<nat>, desc: Link): (xs: set<nat>) {
    set t | t in won :: Get(desc, t)
  }

  /** A descriptor is woken through at most one of its entries, and only if neither of its locks was
      held. */
  lemma OneEntryEach(d: Descriptors, q: seq<nat>, desc: Link, matching: set<nat>, t: nat, u: nat)
    requires var won := Offers(d, q, desc, matching).1; t in won && u in won
    ensures t in q && Get(desc, t) !in d.locked && Get(desc, t) !in d.waking
    ensures Get(desc, t) == Get(desc, u) ==> t == u
  {
    OffersBound(d, q, desc, matching);
  }

  /** Every descriptor with a matching entry has an event afterwards, and one that had one keeps it. */
  lemma {:induction false} EventRecorded(d: Descriptors, q: seq<nat>, desc: Link, matching: set<nat>)
    ensures var d' := Offers(d, q, desc, matching).0;
            && (forall t :: t in q && t in matching ==> Get(desc, t) in d'.event)
            && (forall x :: x in d.event ==> x in d'.event && d'.event[x] == d.event[x])
            && (forall x :: x in d'.event && x !in d.event ==>
                  d'.event[x] in q && d'.event[x] in matching && Get(desc, d'.event[x]) == x)
    decreases |q|
  {
    if q != [] {
      EventRecorded(Offer(d, Get(desc, q[0]), q[0], q[0] in matching).0, q[1..], desc, matching);
      assert q == [q[0]] + q[1..];
    }
  }

  /** A header and the links of the entries registered with it. */
  class Header {
    var data: nat
    var next: Link
    var prev: Link
    ghost var entries: seq<nat>

    ghost predicate Valid()
      reads this
    {
      Chain(entries, data, next, prev)
    }

    /** POLL_INITHEADER. */
    constructor ()
      ensures Valid() && entries == []
    {
      data, next, prev, entries := 0, map[], map[], [];
    }

    /** poll_add of an entry that is in no list. */
    method Add(t: nat)
      requires Valid() && t != 0 && t !in entries
      modifies this
      ensures Valid() && entries == [t] + old(entries)
    {
      data, next, prev := PushFront(data, next, prev, t, entries);
      entries := [t] + entries;
    }

    /** poll_leave of an entry that is registered here. */
    method Leave(t: nat)
      requires Valid() && t in entries
      modifies this
      ensures Valid() && entries == Without(old(entries), t)
    {
      ghost var k :| 0 <= k < |entries| && entries[k] == t;
      data, next, prev := Unlink(data, next, prev, t, entries, k);
      WithoutAt(entries, k);
      entries := Without(entries, t);
    }

    /** poll_event: exactly the entries that win are woken, in the order of the list, and every entry is
        registered afterwards. The wakeuplocks are as before; the locks stay taken. */
    method Event(desc: Link, matching: set<nat>, d: Descriptors) returns (woken: seq<nat>, d': Descriptors)
      requires Valid()
      modifies this
      ensures var (d1, won) := Offers(d, old(entries), desc, matching);
              && Valid() && woken == Among(old(entries), won) && entries == AfterEvent(old(entries), won)
              && d' == d1.(waking := d.waking)
    {
      ghost var won := Offers(d, entries, desc, matching).1;
      var pending, kept, n, p;
      pending, kept, n, p, d' := FirstPass(data, next, prev, desc, matching, d, entries);
      ghost var d1 := d';
      data, next, prev, woken, d' := SecondPass(pending, kept, n, p, desc, d', Among(entries, won),
                                                Reverse(NotAmong(entries, won)));
      OffersBound(d, entries, desc, matching);
      AmongMembers(entries, won);
      AllReleased(d, d1, woken, won, desc);
      entries := AfterEvent(entries, won);
    }
  }

  lemma AllReleased(d: Descriptors, d1: Descriptors, woken: seq<nat>, won: set<nat>, desc: Link)
    requires d1.waking == d.waking + Descs(won, desc)
    requires (forall t :: t in won ==> t in woken && Get(desc, t) !in d.waking)
    requires forall t :: t in woken ==> t in won
    ensures d1.waking - DescsOf(woken, desc) == d.waking
  {}

  // ----- The passes of poll_event

  /** In the first pass: w is what stays pending, r what is still to be visited, h the list of the
      header. */
  ghost predicate Passing(q: seq<nat>, won: set<nat>, w: seq<nat>, r: seq<nat>, h: seq<nat>) {
    && Among(q, won) == w + Among(r, won) && Reverse(NotAmong(q, won)) == Reverse(NotAmong(r, won)) + h
    && Apart(w + r, h)
  }

  lemma PassingStep(q: seq<nat>, won: set<nat>, w: seq<nat>, r: seq<nat>, h: seq<nat>)
    requires Passing(q, won, w, r, h) && r != [] && Distinct(w + r)
    ensures if r[0] in won then Passing(q, won, w + [r[0]], r[1..], h) else Passing(q, won, w, r[1..], [r[0]] + h)
  {
    assert w + r == w + [r[0]] + r[1..] && (w + r)[|w|] == r[0];
    if r[0] in won {
      assert w + ([r[0]] + Among(r[1..], won)) == w + [r[0]] + Among(r[1..], won);
    } else {
      NotAmongStep(r, won, h);
      StillIn(w + r, |w|);
      assert (w + r)[..|w|] + (w + r)[|w| + 1..] == w + r[1..];
    }
  }

  lemma NotAmongStep(r: seq<nat>, won: set<nat>, h: seq<nat>)
    requires r != [] && r[0] !in won
    ensures Reverse(NotAmong(r, won)) + h == Reverse(NotAmong(r[1..], won)) + ([r[0]] + h)
  {
    var rest := NotAmong(r[1..], won);
    assert ([r[0]] + rest)[1..] == rest;
    assert Reverse(rest) + [r[0]] + h == Reverse(rest) + ([r[0]] + h);
  }

  /** In the first pass: what is left to be offered, and the winners among that, are those of the whole
      list. */
  ghost predicate Offering(won: set<nat>, dq: Descriptors, r: seq<nat>, d: Descriptors, desc: Link,
                           matching: set<nat>) {
    && Offers(d, r, desc, matching).0 == dq
    && forall t :: t in r ==> (t in won <==> t in Offers(d, r, desc, matching).1)
  }

  lemma OfferingStep(won: set<nat>, dq: Descriptors, r: seq<nat>, d: Descriptors, desc: Link,
                     matching: set<nat>)
    requires Offering(won, dq, r, d, desc, matching) && r != [] && r[0] !in r[1..]
    ensures var (d', wins) := Offer(d, Get(desc, r[0]), r[0], r[0] in matching);
            (wins <==> r[0] in won) && Offering(won, dq, r[1..], d', desc, matching)
  {
    var d1 := Offer(d, Get(desc, r[0]), r[0], r[0] in matching).0;
    OffersBound(d1, r[1..], desc, matching);
    assert r == [r[0]] + r[1..];
  }

  lemma OfferingEnd(won: set<nat>, dq: Descriptors, r: seq<nat>, d: Descriptors, desc: Link,
                    matching: set<nat>)
    requires Offering(won, dq, r, d, desc, matching) && First(r) == 0 && 0 !in r
    ensures d == dq
  {
    assert r == [];
  }

  method FirstPass(data: nat, next: Link, prev: Link, desc: Link, matching: set<nat>, d: Descriptors, ghost q: seq<nat>)
    returns (pending: nat, kept: nat, next': Link, prev': Link, d': Descriptors)
    requires Chain(q, data, next, prev)
    ensures var (d1, won) := Offers(d, q, desc, matching);
            && Chain(Among(q, won), pending, next', prev') && Chain(Reverse(NotAmong(q, won)), kept, next', prev')
            && Apart(Among(q, won), Reverse(NotAmong(q, won))) && d' == d1
  {
    hide Chain, Passing, Among, NotAmong, Reverse, Distinct, Offering, Offer, Offers;
    ghost var (dq, won) := Offers(d, q, desc, matching);
    pending, kept, next', prev', d' := data, 0, next, prev, d;
    var entry := data;
    ghost var w, r, h := [], q, [];
    PassingStart(q, won, data, next, prev);
    OfferingStart(q, d, desc, matching);
    while entry != 0
      invariant Chain(w + r, pending, next', prev') && Chain(h, kept, next', prev') && Passing(q, won, w, r, h)
      invariant entry == First(r)
      invariant Offering(won, dq, r, d', desc, matching)
      decreases |r|
    {
      ChainStep(w, r, pending, next', prev');
      OfferingStep(won, dq, r, d', desc, matching);
      PassingStep(q, won, w, r, h);
      var following := Get(next', entry);
      var offer := Offer(d', Get(desc, entry), entry, entry in matching);
      d' := offer.0;
      if offer.1 {
        assert w + r == w + [r[0]] + r[1..];
        w := w + [r[0]];
      } else {
        ghost var n0, p0 := next', prev';
        PassingApart(q, won, w, r, h);
        pending, next', prev' := Unlink(pending, next', prev', entry, w + r, |w|);
        ChainFrame(h, kept, n0, p0, next', prev');
        n0, p0 := next', prev';
        kept, next', prev' := PushFront(kept, next', prev', entry, h);
        RestApart(w, r, h);
        ChainFrame(w + r[1..], pending, n0, p0, next', prev');
        h := [r[0]] + h;
      }
      entry := following;
      r := r[1..];
    }
    PassingEnd(q, won, w, r, h, entry, pending, next', prev');
    OfferingEnd(won, dq, r, d', desc, matching);
  }

  lemma OfferingStart(q: seq<nat>, d: Descriptors, desc: Link, matching: set<nat>)
    ensures var (dq, won) := Offers(d, q, desc, matching); Offering(won, dq, q, d, desc, matching)
  {}

  lemma PassingStart(q: seq<nat>, won: set<nat>, data: nat, next: Link, prev: Link)
    requires Chain(q, data, next, prev)
    ensures Chain([] + q, data, next, prev) && Chain([], 0, next, prev)
    ensures Passing(q, won, [], q, []) && data == First(q)
  {
    assert [] + q == q;
  }

  lemma ChainStep(w: seq<nat>, r: seq<nat>, head: nat, next: Link, prev: Link)
    requires Chain(w + r, head, next, prev) && First(r) != 0
    ensures r != [] && Distinct(w + r) && (w + r)[|w|] == r[0] && Get(next, r[0]) == First(r[1..]) && r[0] != 0
    ensures (w + r)[..|w|] + (w + r)[|w| + 1..] == w + r[1..] && r[0] !in w + r[1..]
  {
    assert LinkedAt(w + r, next, prev, |w|);
    assert forall k :: 0 <= k < |w + r[1..]| ==> (w + r[1..])[k] == (w + r)[if k < |w| then k else k + 1];
  }

  lemma PassingApart(q: seq<nat>, won: set<nat>, w: seq<nat>, r: seq<nat>, h: seq<nat>)
    requires Passing(q, won, w, r, h) && r != []
    ensures r[0] !in h && forall t :: t in h ==> t !in w + r
  {
    assert (w + r)[|w|] == r[0];
  }

  lemma RestApart(w: seq<nat>, r: seq<nat>, h: seq<nat>)
    requires r != [] && r[0] !in w + r[1..] && forall t :: t in h ==> t !in w + r
    ensures forall t :: t in w + r[1..] ==> t != r[0] && t !in h
  {
    assert forall t :: t in w + r[1..] ==> t in w + r;
  }

  lemma PassingEnd(q: seq<nat>, won: set<nat>, w: seq<nat>, r: seq<nat>, h: seq<nat>, entry: nat, pending: nat,
                   next: Link, prev: Link)
    requires Chain(w + r, pending, next, prev) && Passing(q, won, w, r, h) && entry == First(r) && entry == 0
    ensures w == Among(q, won) && h == Reverse(NotAmong(q, won)) && Chain(w, pending, next, prev) && Apart(w, h)
    ensures 0 !in r
  {
    assert r == [];
    assert w + r == w && w + [] == w && [] + h == h;
  }

  /** In the second pass only the forward links of the pending entries are still good. */
  ghost predicate Forward(r: seq<nat>, head: nat, next: Link) {
    && Distinct(r) && 0 !in r && head == First(r)
    && forall k :: 0 <= k < |r| ==> ForwardAt(r, next, k)
  }

  ghost predicate ForwardAt(r: seq<nat>, next: Link, k: nat)
    requires k < |r|
  {
    Get(next, r[k]) == if k + 1 < |r| then r[k + 1] else 0
  }

  /** The descriptors of a list of entries. */
  function DescsOf(q: seq<nat>, desc: Link): (xs: set<nat>) {
    set t | t in q :: Get(desc, t)
  }

  lemma DescsOfSnoc(q: seq<nat>, t: nat, desc: Link)
    ensures DescsOf(q + [t], desc) == DescsOf(q, desc) + {Get(desc, t)}
  {
    assert forall u :: u in q + [t] <==> u in q || u == t;
  }

  method SecondPass(pending: nat, data: nat, next: Link, prev: Link, desc: Link, d: Descriptors, ghost w: seq<nat>,
                    ghost h: seq<nat>) returns (data': nat, next': Link, prev': Link, woken: seq<nat>, d': Descriptors)
    requires Chain(w, pending, next, prev) && Chain(h, data, next, prev) && Apart(w, h)
    ensures woken == w && Chain(Reverse(w) + h, data', next', prev')
    ensures d' == d.(waking := d.waking - DescsOf(w, desc))
  {
    hide Chain, Forward, Reverse, Apart;
    ForwardStart(w, pending, next, prev);
    data', next', prev', woken, d' := data, next, prev, [], d;
    var entry := pending;
    ghost var r, l := w, h;
    assert Reverse([]) + h == h by { ReverseEmpty(h); }
    while entry != 0
      invariant Forward(r, entry, next') && Chain(l, data', next', prev') && Apart(r, l) && woken + r == w
      invariant l == Reverse(woken) + h
      invariant d' == d.(waking := d.waking - DescsOf(woken, desc))
      decreases |r|
    {
      ForwardStep(r, entry, next', l);
      var following := Get(next', entry);
      DescsOfSnoc(woken, entry, desc);
      woken := woken + [entry];
      ghost var n0 := next';
      data', next', prev' := PushFront(data', next', prev', entry, l);
      ForwardKept(r[1..], following, n0, next', entry, l);
      ReverseSnoc(woken[..|woken| - 1], entry, h);
      assert woken[..|woken| - 1] + [entry] == woken;
      l := [entry] + l;
      d' := d'.(waking := d'.waking - {Get(desc, entry)});
      entry := following;
      r := r[1..];
    }
    ForwardEnd(r, entry, next');
    assert woken + [] == woken;
  }

  lemma ReverseEmpty(h: seq<nat>)
    ensures Reverse([]) + h == h
  {}

  lemma ForwardStart(w: seq<nat>, head: nat, next: Link, prev: Link)
    requires Chain(w, head, next, prev)
    ensures Forward(w, head, next)
  {
    forall k | 0 <= k < |w|
      ensures ForwardAt(w, next, k)
    {
      assert LinkedAt(w, next, prev, k);
    }
  }

  lemma ForwardStep(r: seq<nat>, head: nat, next: Link, l: seq<nat>)
    requires Forward(r, head, next) && head != 0 && Apart(r, l)
    ensures r != [] && r[0] == head && head !in l && head !in r[1..] && r == [head] + r[1..]
    ensures Forward(r[1..], Get(next, head), next) && Apart(r[1..], [head] + l)
  {
    assert r == [r[0]] + r[1..];
    assert ForwardAt(r, next, 0);
    forall k | 0 <= k < |r[1..]|
      ensures ForwardAt(r[1..], next, k)
    {
      assert ForwardAt(r, next, k + 1);
    }
  }

  lemma ForwardKept(r: seq<nat>, head: nat, next: Link, next': Link, t: nat, l: seq<nat>)
    requires Forward(r, head, next) && t !in r && forall u :: u != t ==> Get(next', u) == Get(next, u)
    ensures Forward(r, head, next')
  {
    forall k | 0 <= k < |r|
      ensures ForwardAt(r, next', k)
    {
      assert ForwardAt(r, next, k);
    }
  }

  lemma ForwardEnd(r: seq<nat>, head: nat, next: Link)
    requires Forward(r, head, next) && head == 0
    ensures r == []
  {
  }

  lemma {:induction false} ReverseSnoc(w: seq<nat>, t: nat, h: seq<nat>)
    ensures Reverse(w + [t]) + h == [t] + (Reverse(w) + h)
  {
    if w == [] {
      assert w + [t] == [t] && [t][1..] == [];
    } else {
      ReverseSnoc(w[1..], t, []);
      assert (w + [t])[1..] == w[1..] + [t];
      assert Reverse(w[1..] + [t]) + [] == Reverse(w[1..] + [t]) && Reverse(w[1..]) + [] == Reverse(w[1..]);
      assert [t] + Reverse(w[1..]) + [w[0]] + h == [t] + (Reverse(w[1..]) + [w[0]] + h);
    }
  }
}
