/**
 The counting semaphore of kernel-src/lib/semaphore.c: its queue of sleeping threads, threaded
 through the threads themselves, and the operations that run under its spinlock. Threads are
 numbered from one; zero stands for NULL.
 */
module Semaphores {
  import opened Links

  /** The queue, newest first. A thread that is not in it has no links. */
  ghost predicate Linked(q: seq<nat>, head: nat, tail: nat, next: Link, prev: Link) {
    && Distinct(q) && 0 !in q && head == First(q) && tail == Last(q)
    && (forall k :: 0 <= k < |q| ==> LinkedAt(q, next, prev, k))
    && (forall t :: t !in q ==> Get(next, t) == 0 && Get(prev, t) == 0)
  }

  /** The fields of a semaphore and of the threads in its queue. */
  class Semaphore {
    var i: int
    var head: nat
    var tail: nat
    var next: Link
    var prev: Link
    ghost var queue: seq<nat>

    ghost predicate Listed()
      reads this
    {
      Linked(queue, head, tail, next, prev)
    }

    /** One thread waits for every unit below zero. */
    ghost predicate Valid()
      reads this
    {
      Listed() && |queue| == Waiting(i)
    }

    /** SEMAPHORE_INIT. */
    constructor (units: nat)
      ensures Valid() && i == units && queue == []
    {
      i, head, tail, next, prev, queue := units, 0, 0, map[], map[], [];
    }

    method Insert(t: nat)
      requires Listed() && t != 0 && t !in queue
      modifies this`head, this`tail, this`next, this`prev, this`queue
      ensures Listed() && queue == [t] + old(queue)
    {
      next := next[t := head];
      prev := prev[t := 0];
      head := t;
      if tail == 0 {
        tail := t;
      }
      if next[t] != 0 {
        prev := prev[next[t] := t];
      }
      InsertLinked(old(queue), old(head), old(tail), old(next), old(prev), t, tail, next, prev);
      queue := [t] + queue;
    }

    method GetTail() returns (t: nat)
      requires Listed()
      modifies this`head, this`tail, this`next, this`prev, this`queue
      ensures Listed() && t == Last(old(queue)) && queue == old(queue)[..if t == 0 then 0 else |old(queue)| - 1]
    {
      t := tail;
      if t == 0 {
        return;
      }
      tail := Get(prev, t);
      if tail == 0 {
        head := 0;
      } else {
        next := next[tail := 0];
      }
      prev := prev[t := 0];
      next := next[t := 0];
      GetLinked(old(queue), old(head), old(tail), old(next), old(prev), head, tail, next, prev);
      queue := queue[..|queue| - 1];
    }

    /** removeself: whether the thread was still in the queue is read off its links. */
    method RemoveSelf(t: nat) returns (found: bool)
      requires Listed() && t != 0
      modifies this`head, this`tail, this`next, this`prev, this`queue
      ensures Listed() && found == (t in old(queue)) && queue == Without(old(queue), t)
    {
      LinksTell(queue, head, tail, next, prev, t);
      if (head == 0 && tail == 0) || !((Get(next, t) != 0 || Get(prev, t) != 0) || (head == t && tail == t)) {
        return false;
      }
      ghost var k :| 0 <= k < |queue| && queue[k] == t;
      var n, p := Get(next, t), Get(prev, t);
      if head == t {
        head := n;
      } else {
        next := next[p := n];
      }
      if tail == t {
        tail := p;
      } else {
        prev := prev[n := p];
      }
      prev := prev[t := 0];
      next := next[t := 0];
      RemoveLinked(old(queue), old(head), old(tail), old(next), old(prev), k, head, tail, next, prev);
      WithoutAt(queue, k);
      queue := Without(queue, t);
      found := true;
    }

    /** The locked part of semaphore_wait, up to the sleep. */
    method Down(t: nat) returns (granted: bool)
      requires Valid() && t != 0 && t !in queue
      modifies this
      ensures Valid() && i == old(i) - 1 && granted == (0 <= i)
      ensures queue == if granted then old(queue) else [t] + old(queue)
    {
      i := i - 1;
      granted := true;
      if i < 0 {
        Insert(t);
        granted := false;
      }
    }

    /** The locked part of semaphore_wait after an interrupted sleep. The wait failed exactly if the
        thread was still in the queue. */
    method Retract(t: nat) returns (failed: bool)
      requires Valid() && t != 0
      modifies this
      ensures Valid() && failed == (t in old(queue)) && queue == Without(old(queue), t)
      ensures i == if failed then old(i) + 1 else old(i)
    {
      failed := RemoveSelf(t);
      if failed {
        i := i + 1;
      }
      WithoutLength(old(queue), t);
    }

    /** semaphore_signal: the thread to be woken, or zero. Its assertion that there is one holds. */
    method Up() returns (t: nat)
      requires Valid()
      modifies this
      ensures Valid() && i == old(i) + 1 && (t != 0 <==> old(queue) != []) && t == Last(old(queue))
      ensures queue == if t == 0 then old(queue) else old(queue)[..|old(queue)| - 1]
    {
      i := i + 1;
      t := 0;
      if i <= 0 {
        t := GetTail();
        assert t != 0;
      }
    }

    /** semaphore_signal_limit. */
    method UpTo(limit: int) returns (done: bool, t: nat)
      requires Valid()
      modifies this
      ensures Valid() && done == (old(i) < limit)
      ensures !done ==> i == old(i) && queue == old(queue) && t == 0
      ensures done ==> i == old(i) + 1 && t == Last(old(queue))
      ensures done ==> queue == if t == 0 then old(queue) else old(queue)[..|old(queue)| - 1]
    {
      done, t := i < limit, 0;
      if done {
        t := Up();
      }
    }

    /** semaphore_test. */
    method Test() returns (granted: bool)
      requires Valid()
      modifies this`i
      ensures Valid() && granted == (0 < old(i)) && i == if granted then old(i) - 1 else old(i)
    {
      granted := i > 0;
      if granted {
        i := i - 1;
      }
    }
  }

  lemma WithoutLength(q: seq<nat>, t: nat)
    requires Distinct(q)
    ensures |Without(q, t)| == if t in q then |q| - 1 else |q|
  {
    if t in q {
      var k :| 0 <= k < |q| && q[k] == t;
      WithoutAt(q, k);
    }
  }

  /** Threads that wait when the counter is i. */
  function Waiting(i: int): (n: nat) {
    if i < 0 then -i else 0
  }

  lemma InsertLinked(q: seq<nat>, head: nat, tail: nat, next: Link, prev: Link, t: nat, tail': nat, next': Link,
                     prev': Link)
    requires Linked(q, head, tail, next, prev) && t != 0 && t !in q
    requires tail' == (if tail == 0 then t else tail) && next' == next[t := head]
    requires prev' == (if head != 0 then prev[t := 0][head := t] else prev[t := 0])
    ensures Linked([t] + q, t, tail', next', prev')
  {
    var q' := [t] + q;
    forall k | 0 <= k < |q'|
      ensures LinkedAt(q', next', prev', k)
    {
      if 0 < k { assert LinkedAt(q, next, prev, k - 1); }
    }
  }

  lemma GetLinked(q: seq<nat>, head: nat, tail: nat, next: Link, prev: Link, head': nat, tail': nat,
                  next': Link, prev': Link)
    requires Linked(q, head, tail, next, prev) && tail != 0 && tail' == Get(prev, tail)
    requires head' == (if tail' == 0 then 0 else head)
    requires next' == (if tail' == 0 then next else next[tail' := 0])[tail := 0] && prev' == prev[tail := 0]
    ensures Linked(q[..|q| - 1], head', tail', next', prev')
  {
    var q' := q[..|q| - 1];
    assert LinkedAt(q, next, prev, |q| - 1);
    forall k | 0 <= k < |q'|
      ensures LinkedAt(q', next', prev', k)
    {
      assert LinkedAt(q, next, prev, k) && q[k] != tail;
    }
    forall t | t !in q'
      ensures Get(next', t) == 0 && Get(prev', t) == 0
    {
      if t in q { assert t == tail; }
    }
  }

  /** A thread is in the queue exactly if its links or the ends of the queue say so. */
  lemma LinksTell(q: seq<nat>, head: nat, tail: nat, next: Link, prev: Link, t: nat)
    requires Linked(q, head, tail, next, prev) && t != 0
    ensures t in q
       <==> !((head == 0 && tail == 0) || !((Get(next, t) != 0 || Get(prev, t) != 0) || (head == t && tail == t)))
  {
    if t in q {
      var k :| 0 <= k < |q| && q[k] == t;
      assert LinkedAt(q, next, prev, k);
    }
  }

  lemma RemoveLinked(q: seq<nat>, head: nat, tail: nat, next: Link, prev: Link, k: nat, head': nat, tail': nat,
                     next': Link, prev': Link)
    requires Linked(q, head, tail, next, prev) && k < |q|
    requires var t, n, p := q[k], Get(next, q[k]), Get(prev, q[k]);
             && head' == (if head == t then n else head) && tail' == (if tail == t then p else tail)
             && next' == (if head == t then next else next[p := n])[t := 0]
             && prev' == (if tail == t then prev else prev[n := p])[t := 0]
    ensures Linked(q[..k] + q[k + 1..], head', tail', next', prev')
  {
    var q' := q[..k] + q[k + 1..];
    assert LinkedAt(q, next, prev, k);
    forall j | 0 <= j < |q'|
      ensures LinkedAt(q', next', prev', j)
    {
      var o := if j < k then j else j + 1;
      assert LinkedAt(q, next, prev, o) && q'[j] == q[o];
    }
    StillIn(q, k);
    forall t | t !in q'
      ensures Get(next', t) == 0 && Get(prev', t) == 0
    {
      assert t == q[k] || t !in q;
    }
    assert 0 !in q' by { assert forall j :: 0 <= j < |q'| ==> q'[j] in q; }
  }
}
