/**
 Linked lists that are threaded through their nodes, as the kernel keeps them in threads, poll
 entries and slabs. Nodes are numbered from one; zero stands for NULL.
 */
module Links {

  /** A field of every node; a node without an entry holds NULL. */
  type Link = map<nat, nat>

  function Get(m: Link, t: nat): (u: nat) {
    if t in m then m[t] else 0
  }

  function First(q: seq<nat>): (t: nat) {
    if q == [] then 0 else q[0]
  }

  function Last(q: seq<nat>): (t: nat) {
    if q == [] then 0 else q[|q| - 1]
  }

  ghost predicate Distinct(q: seq<nat>) {
    forall j, k :: 0 <= j < |q| && 0 <= k < |q| && q[j] == q[k] ==> j == k
  }

  ghost predicate LinkedAt(q: seq<nat>, next: Link, prev: Link, k: nat)
    requires k < |q|
  {
    && Get(next, q[k]) == (if k + 1 < |q| then q[k + 1] else 0)
    && Get(prev, q[k]) == (if 0 < k then q[k - 1] else 0)
  }

  /** A list without one node. */
  function Without(q: seq<nat>, t: nat): (r: seq<nat>)
    ensures t !in q ==> r == q
  {
    if q == [] then [] else if q[0] == t then q[1..] else [q[0]] + Without(q[1..], t)
  }

  lemma {:induction false} WithoutAt(q: seq<nat>, k: nat)
    requires Distinct(q) && k < |q|
    ensures Without(q, q[k]) == q[..k] + q[k + 1..]
  {
    if k == 0 {
      assert q[..0] + q[1..] == q[1..];
    } else {
      assert q[1..][k - 1] == q[k] && q[0] != q[k];
      WithoutAt(q[1..], k - 1);
      assert [q[0]] + (q[1..][..k - 1] + q[1..][k..]) == q[..k] + q[k + 1..];
    }
  }

  lemma StillIn(q: seq<nat>, k: nat)
    requires Distinct(q) && k < |q|
    ensures forall t :: t in q[..k] + q[k + 1..] <==> t in q && t != q[k]
    ensures Distinct(q[..k] + q[k + 1..])
  {
    var q' := q[..k] + q[k + 1..];
    assert forall j :: 0 <= j < |q'| ==> q'[j] == q[if j < k then j else j + 1];
    forall t | t in q && t != q[k]
      ensures t in q'
    {
      var o :| 0 <= o < |q| && q[o] == t;
      assert q'[if o < k then o else o - 1] == t;
    }
  }

  /** A doubly linked list from its first node. */
  ghost predicate Chain(q: seq<nat>, head: nat, next: Link, prev: Link) {
    Distinct(q) && 0 !in q && head == First(q) && forall k :: 0 <= k < |q| ==> LinkedAt(q, next, prev, k)
  }

  ghost predicate Apart(p: seq<nat>, q: seq<nat>) {
    forall t :: t in p ==> t !in q
  }

  // ----- Pushing and unlinking

  /** Writes to the links of other nodes leave a list alone. */
  lemma ChainFrame(q: seq<nat>, head: nat, next: Link, prev: Link, next': Link, prev': Link)
    requires Chain(q, head, next, prev)
    requires forall t :: t in q ==> Get(next', t) == Get(next, t) && Get(prev', t) == Get(prev, t)
    ensures Chain(q, head, next', prev')
  {
    forall k | 0 <= k < |q|
      ensures LinkedAt(q, next', prev', k)
    {
      assert LinkedAt(q, next, prev, k) && q[k] in q;
    }
  }

  lemma InsertChain(q: seq<nat>, head: nat, next: Link, prev: Link, t: nat, next': Link, prev': Link)
    requires Chain(q, head, next, prev) && t != 0 && t !in q
    requires next' == next[t := head] && prev' == (if head != 0 then prev[t := 0][head := t] else prev[t := 0])
    ensures Chain([t] + q, t, next', prev')
  {
    var q' := [t] + q;
    forall k | 0 <= k < |q'|
      ensures LinkedAt(q', next', prev', k)
    {
      if 0 < k { assert LinkedAt(q, next, prev, k - 1); }
    }
  }

  lemma RemoveChain(q: seq<nat>, head: nat, next: Link, prev: Link, k: nat, head': nat, next': Link, prev': Link)
    requires Chain(q, head, next, prev) && k < |q|
    requires var t, n, p := q[k], Get(next, q[k]), Get(prev, q[k]);
             && head' == (if p != 0 then head else n)
             && next' == (if p != 0 then next[p := n] else next)[t := 0]
             && prev' == (if n != 0 then prev[n := p] else prev)[t := 0]
    ensures Chain(q[..k] + q[k + 1..], head', next', prev')
    ensures forall t :: t !in q ==> Get(next', t) == Get(next, t) && Get(prev', t) == Get(prev, t)
  {
    var q' := q[..k] + q[k + 1..];
    assert LinkedAt(q, next, prev, k);
    StillIn(q, k);
    forall j | 0 <= j < |q'|
      ensures LinkedAt(q', next', prev', j)
    {
      var o := if j < k then j else j + 1;
      assert LinkedAt(q, next, prev, o) && q'[j] == q[o];
    }
    assert 0 !in q' by { assert forall j :: 0 <= j < |q'| ==> q'[j] in q; }
  }

  method PushFront(head: nat, next: Link, prev: Link, t: nat,
                   ghost q: seq<nat>) returns (head': nat, next': Link, prev': Link)
    requires Chain(q, head, next, prev) && t != 0 && t !in q
    ensures Chain([t] + q, head', next', prev')
    ensures forall u :: u != t && u !in q ==> Get(next', u) == Get(next, u) && Get(prev', u) == Get(prev, u)
    ensures forall u :: u != t ==> Get(next', u) == Get(next, u)
  {
    prev' := prev[t := 0];
    next' := next[t := head];
    if head != 0 {
      prev' := prev'[head := t];
    }
    head' := t;
    InsertChain(q, head, next, prev, t, next', prev');
  }

  method Unlink(head: nat, next: Link, prev: Link, t: nat, ghost q: seq<nat>,
                ghost k: nat) returns (head': nat, next': Link, prev': Link)
    requires Chain(q, head, next, prev) && k < |q| && q[k] == t
    ensures Chain(q[..k] + q[k + 1..], head', next', prev')
    ensures forall u :: u !in q ==> Get(next', u) == Get(next, u) && Get(prev', u) == Get(prev, u)
  {
    var n, p := Get(next, t), Get(prev, t);
    head', next', prev' := head, next, prev;
    if n != 0 {
      prev' := prev'[n := p];
    }
    if p != 0 {
      next' := next'[p := n];
    } else {
      head' := n;
    }
    prev' := prev'[t := 0];
    next' := next'[t := 0];
    RemoveChain(q, head, next, prev, k, head', next', prev');
  }
}
