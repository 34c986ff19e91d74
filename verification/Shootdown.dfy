/**
 TLB shootdown of kernel-src/arch/x86-64/mmu.c as a state machine: any number of CPUs, each of
 which may invalidate a range at any time, take an inter-processor interrupt, and load or drop
 translations. A translation remembers when it was loaded.
 */
module Shootdown {

  const PAGE_SIZE: nat := 4096

  datatype Cached = Cached(page: nat, time: nat)

  /** A call of arch_mmu_invalidate_range: first page, size in bytes, and when it was made. Page
      zero stands for the whole address space. */
  datatype Request = Request(page: nat, size: nat, time: nat)

  /** Where a CPU is in arch_mmu_invalidate_range. */
  datatype Pc =
    | Idle
    | Waiting(q: Request)
    | Locked(q: Request)
    | PageStored(q: Request)
    | SizeStored(q: Request)
    | Sending(q: Request, next: nat)
    | Flushing(q: Request, k: nat)
    | Spinning(q: Request)
    | Returned(q: Request)

  /** Where a CPU is in arch_mmu_tlbipi, with the request that it read. */
  datatype Handler = None | Invalidating(q: Request, k: nat) | Invalidated

  datatype State = State(clock: nat, tlb: seq<set<Cached>>, pc: seq<Pc>, handler: seq<Handler>, pending: set<nat>,
                         owner: int, page: nat, size: nat, remaining: int)

  predicate Covers(q: Request, page: nat) {
    q.page == 0 || (q.page <= page && (page - q.page) * PAGE_SIZE < q.size)
  }

  predicate FlushesAll(q: Request) {
    q.page == 0 || q.size >= 128 * PAGE_SIZE
  }

  /** A translation of the range from before the call. */
  predicate Stale(q: Request, e: Cached) {
    Covers(q, e.page) && e.time < q.time
  }

  ghost predicate Clean(tlb: set<Cached>, q: Request) {
    forall e :: e in tlb ==> !Stale(q, e)
  }

  /** The first k pages of the range are clean. */
  ghost predicate CleanUpTo(tlb: set<Cached>, q: Request, k: nat) {
    forall e :: e in tlb && Stale(q, e) ==> if FlushesAll(q) then k == 0 else k <= e.page - q.page
  }

  ghost predicate Shaped(s: State, n: nat) {
    |s.tlb| == n && |s.pc| == n && |s.handler| == n && 0 < n
  }

  // ----- Steps

  ghost predicate Load(s: State, s': State, n: nat, c: nat, page: nat)
    requires Shaped(s, n)
  {
    c < n && s' == s.(tlb := s.tlb[c := s.tlb[c] + {Cached(page, s.clock)}], clock := s.clock + 1)
  }

  ghost predicate Drop(s: State, s': State, n: nat, c: nat, e: Cached)
    requires Shaped(s, n)
  {
    c < n && s' == s.(tlb := s.tlb[c := s.tlb[c] - {e}])
  }

  ghost predicate Call(s: State, s': State, n: nat, c: nat, page: nat, size: nat)
    requires Shaped(s, n)
  {
    c < n && (s.pc[c].Idle? || s.pc[c].Returned?) && s' == s.(pc := s.pc[c := Waiting(Request(page, size, s.clock))])
  }

  ghost predicate Acquire(s: State, s': State, n: nat, c: nat)
    requires Shaped(s, n)
  {
    c < n && s.pc[c].Waiting? && s.owner == -1 && s' == s.(owner := c, pc := s.pc[c := Locked(s.pc[c].q)])
  }

  ghost predicate StorePage(s: State, s': State, n: nat, c: nat)
    requires Shaped(s, n)
  {
    c < n && s.pc[c].Locked? && s' == s.(page := s.pc[c].q.page, pc := s.pc[c := PageStored(s.pc[c].q)])
  }

  ghost predicate StoreSize(s: State, s': State, n: nat, c: nat)
    requires Shaped(s, n)
  {
    c < n && s.pc[c].PageStored? && s' == s.(size := s.pc[c].q.size, pc := s.pc[c := SizeStored(s.pc[c].q)])
  }

  ghost predicate StoreRemaining(s: State, s': State, n: nat, c: nat)
    requires Shaped(s, n)
  {
    c < n && s.pc[c].SizeStored? && s' == s.(remaining := n - 1, pc := s.pc[c := Sending(s.pc[c].q, 0)])
  }

  /** One round of the loop that sends the interrupts. */
  ghost predicate Send(s: State, s': State, n: nat, c: nat)
    requires Shaped(s, n)
  {
    && c < n && s.pc[c].Sending? && s.pc[c].next < n
    && s' == s.(pending := if s.pc[c].next == c then s.pending else s.pending + {s.pc[c].next},
                pc := s.pc[c := Sending(s.pc[c].q, s.pc[c].next + 1)])
  }

  ghost predicate Sent(s: State, s': State, n: nat, c: nat)
    requires Shaped(s, n)
  {
    c < n && s.pc[c].Sending? && n <= s.pc[c].next && s' == s.(pc := s.pc[c := Flushing(s.pc[c].q, 0)])
  }

  /** What one round of do_invalidate leaves of the cached translations. */
  ghost function Invalidated1(tlb: set<Cached>, q: Request, k: nat): (tlb': set<Cached>) {
    if FlushesAll(q) then {} else set e | e in tlb && e.page != q.page + k
  }

  predicate MorePages(q: Request, k: nat) {
    if FlushesAll(q) then k == 0 else k * PAGE_SIZE < q.size
  }

  ghost predicate Flush(s: State, s': State, n: nat, c: nat)
    requires Shaped(s, n)
  {
    && c < n && s.pc[c].Flushing? && MorePages(s.pc[c].q, s.pc[c].k)
    && s' == s.(tlb := s.tlb[c := Invalidated1(s.tlb[c], s.pc[c].q, s.pc[c].k)],
                pc := s.pc[c := Flushing(s.pc[c].q, s.pc[c].k + 1)])
  }

  ghost predicate Flushed(s: State, s': State, n: nat, c: nat)
    requires Shaped(s, n)
  {
    c < n && s.pc[c].Flushing? && !MorePages(s.pc[c].q, s.pc[c].k) && s' == s.(pc := s.pc[c := Spinning(s.pc[c].q)])
  }

  ghost predicate Return(s: State, s': State, n: nat, c: nat)
    requires Shaped(s, n)
  {
    c < n && s.pc[c].Spinning? && s.remaining == 0 && s' == s.(owner := -1, pc := s.pc[c := Returned(s.pc[c].q)])
  }

  /** What a handler reads when it starts. */
  function Shared(s: State): (q: Request) {
    Request(s.page, s.size, 0)
  }

  ghost predicate Interrupt(s: State, s': State, n: nat, d: nat)
    requires Shaped(s, n)
  {
    && d < n && d in s.pending && s.handler[d].None?
    && s' == s.(pending := s.pending - {d}, handler := s.handler[d := Invalidating(Shared(s), 0)])
  }

  ghost predicate Handle(s: State, s': State, n: nat, d: nat)
    requires Shaped(s, n)
  {
    && d < n && s.handler[d].Invalidating? && MorePages(s.handler[d].q, s.handler[d].k)
    && s' == s.(tlb := s.tlb[d := Invalidated1(s.tlb[d], s.handler[d].q, s.handler[d].k)],
                handler := s.handler[d := Invalidating(s.handler[d].q, s.handler[d].k + 1)])
  }

  ghost predicate Handled(s: State, s': State, n: nat, d: nat)
    requires Shaped(s, n)
  {
    && d < n && s.handler[d].Invalidating? && !MorePages(s.handler[d].q, s.handler[d].k)
    && s' == s.(handler := s.handler[d := Invalidated])
  }

  ghost predicate Decrement(s: State, s': State, n: nat, d: nat)
    requires Shaped(s, n)
  {
    d < n && s.handler[d].Invalidated? && s' == s.(remaining := s.remaining - 1, handler := s.handler[d := None])
  }

  /** A step of one CPU. */
  ghost predicate Step(s: State, s': State, n: nat, c: nat)
    requires Shaped(s, n)
  {
    || (exists page :: Load(s, s', n, c, page)) || (exists e :: Drop(s, s', n, c, e))
    || (exists page, size :: Call(s, s', n, c, page, size))
    || Acquire(s, s', n, c) || StorePage(s, s', n, c) || StoreSize(s, s', n, c) || StoreRemaining(s, s', n, c)
    || Send(s, s', n, c) || Sent(s, s', n, c) || Flush(s, s', n, c) || Flushed(s, s', n, c) || Return(s, s', n, c)
    || Interrupt(s, s', n, c) || Handle(s, s', n, c) || Handled(s, s', n, c) || Decrement(s, s', n, c)
  }

  ghost predicate Next(s: State, s': State, n: nat) {
    Shaped(s, n) && exists c :: Step(s, s', n, c)
  }

  ghost predicate Init(s: State, n: nat) {
    && Shaped(s, n) && s.pending == {} && s.owner == -1 && s.remaining == 0
    && (forall c :: 0 <= c < n ==> s.pc[c].Idle? && s.handler[c].None?)
    && (forall c, e :: 0 <= c < n && e in s.tlb[c] ==> e.time < s.clock)
  }

  // ----- The invariant

  predicate Critical(pc: Pc) {
    !pc.Idle? && !pc.Waiting? && !pc.Returned?
  }

  predicate Announced(pc: Pc) {
    pc.Sending? || pc.Flushing? || pc.Spinning?
  }

  ghost predicate Exclusive(s: State, n: nat) {
    && Shaped(s, n) && -1 <= s.owner < n
    && forall c :: 0 <= c < n ==> (Critical(s.pc[c]) <==> s.owner == c)
  }

  ghost predicate TimesOk(s: State, n: nat) {
    Shaped(s, n) && forall c :: 0 <= c < n && !s.pc[c].Idle? ==> s.pc[c].q.time <= s.clock
  }

  ghost predicate LoadedOk(s: State, n: nat) {
    Shaped(s, n) && forall c, e :: 0 <= c < n && e in s.tlb[c] ==> e.time < s.clock
  }

  /** A call that has returned left no translation from before it. */
  ghost predicate CallsOk(s: State, n: nat) {
    Shaped(s, n) && forall c, d :: 0 <= c < n && 0 <= d < n && s.pc[c].Returned? ==> Clean(s.tlb[d], s.pc[c].q)
  }

  /** The request of the lock's owner is the one that handlers read. */
  ghost predicate Published(s: State, n: nat) {
    && Exclusive(s, n)
    && (s.owner != -1 ==>
          var pc := s.pc[s.owner];
          && (pc.PageStored? || pc.SizeStored? || Announced(pc) ==> s.page == pc.q.page)
          && (pc.SizeStored? || Announced(pc) ==> s.size == pc.q.size)
          && (pc.Flushing? ==> CleanUpTo(s.tlb[s.owner], pc.q, pc.k))
          && (pc.Spinning? ==> Clean(s.tlb[s.owner], pc.q)))
  }

  ghost predicate Active(s: State, n: nat)
    requires Exclusive(s, n)
  {
    s.owner != -1 && Announced(s.pc[s.owner])
  }

  ghost predicate Unsent(s: State, n: nat, d: nat)
    requires Exclusive(s, n)
  {
    Active(s, n) && s.pc[s.owner].Sending? && s.pc[s.owner].next <= d
  }

  /** A CPU whose flush the owner still waits for. */
  ghost predicate Busy(s: State, n: nat, d: nat)
    requires Exclusive(s, n) && d < n
  {
    d != s.owner && (Unsent(s, n, d) || d in s.pending || !s.handler[d].None?)
  }

  ghost predicate CpuOk(s: State, n: nat, d: nat)
    requires Exclusive(s, n) && d < n
  {
    && (d in s.pending || !s.handler[d].None? ==> Active(s, n) && d != s.owner && !Unsent(s, n, d))
    && (d in s.pending ==> s.handler[d].None?)
    && (Active(s, n) ==>
          var q := s.pc[s.owner].q;
          && (s.handler[d].Invalidating? ==>
                && s.handler[d].q.page == q.page && s.handler[d].q.size == q.size
                && CleanUpTo(s.tlb[d], q, s.handler[d].k))
          && (s.handler[d].Invalidated? ==> Clean(s.tlb[d], q))
          && (d != s.owner && !Busy(s, n, d) ==> Clean(s.tlb[d], q)))
  }

  ghost predicate CpusOk(s: State, n: nat) {
    Exclusive(s, n) && (forall d :: d in s.pending ==> d < n) && forall d :: 0 <= d < n ==> CpuOk(s, n, d)
  }

  ghost function Outstanding(s: State, n: nat): (w: set<nat>)
    requires Exclusive(s, n)
  {
    set d | 0 <= d < n && Busy(s, n, d)
  }

  ghost predicate Counted(s: State, n: nat) {
    Exclusive(s, n) && (Active(s, n) ==> s.remaining == |Outstanding(s, n)|)
  }

  ghost predicate Inv(s: State, n: nat) {
    && Exclusive(s, n) && TimesOk(s, n) && LoadedOk(s, n) && CallsOk(s, n) && Published(s, n) && CpusOk(s, n)
    && Counted(s, n)
  }

  lemma LoadKeeps(s: State, s': State, n: nat, c: nat, page: nat)
    requires Inv(s, n) && Load(s, s', n, c, page)
    ensures Inv(s', n)
  {
    assert Outstanding(s', n) == Outstanding(s, n);
    forall d | 0 <= d < n
      ensures CpuOk(s', n, d)
    {
      assert CpuOk(s, n, d);
    }
  }

  lemma DropKeeps(s: State, s': State, n: nat, c: nat, e: Cached)
    requires Inv(s, n) && Drop(s, s', n, c, e)
    ensures Inv(s', n)
  {
    assert Outstanding(s', n) == Outstanding(s, n);
    forall d | 0 <= d < n
      ensures CpuOk(s', n, d)
    {
      assert CpuOk(s, n, d);
    }
  }

  lemma CallKeeps(s: State, s': State, n: nat, c: nat, page: nat, size: nat)
    requires Inv(s, n) && Call(s, s', n, c, page, size)
    ensures Inv(s', n)
  {
    assert Outstanding(s', n) == Outstanding(s, n);
    forall d | 0 <= d < n
      ensures CpuOk(s', n, d)
    {
      assert CpuOk(s, n, d);
    }
  }

  lemma AcquireKeeps(s: State, s': State, n: nat, c: nat)
    requires Inv(s, n) && Acquire(s, s', n, c)
    ensures Inv(s', n)
  {
    forall d | 0 <= d < n
      ensures CpuOk(s', n, d)
    {
      assert CpuOk(s, n, d);
    }
  }

  lemma StorePageKeeps(s: State, s': State, n: nat, c: nat)
    requires Inv(s, n) && StorePage(s, s', n, c)
    ensures Inv(s', n)
  {
    forall d | 0 <= d < n
      ensures CpuOk(s', n, d)
    {
      assert CpuOk(s, n, d);
    }
  }

  lemma StoreSizeKeeps(s: State, s': State, n: nat, c: nat)
    requires Inv(s, n) && StoreSize(s, s', n, c)
    ensures Inv(s', n)
  {
    forall d | 0 <= d < n
      ensures CpuOk(s', n, d)
    {
      assert CpuOk(s, n, d);
    }
  }

  lemma StoreRemainingKeeps(s: State, s': State, n: nat, c: nat)
    requires Inv(s, n) && StoreRemaining(s, s', n, c)
    ensures Inv(s', n)
  {
    OthersAreAllButOne(n, c);
    assert Outstanding(s', n) == Others(n, c);
    forall d | 0 <= d < n
      ensures CpuOk(s', n, d)
    {
      assert CpuOk(s, n, d);
    }
  }

  lemma SendKeeps(s: State, s': State, n: nat, c: nat)
    requires Inv(s, n) && Send(s, s', n, c)
    ensures Inv(s', n)
  {
    assert Outstanding(s', n) == Outstanding(s, n);
    forall d | 0 <= d < n
      ensures CpuOk(s', n, d)
    {
      assert CpuOk(s, n, d);
    }
  }

  lemma SentKeeps(s: State, s': State, n: nat, c: nat)
    requires Inv(s, n) && Sent(s, s', n, c)
    ensures Inv(s', n)
  {
    assert Outstanding(s', n) == Outstanding(s, n);
    forall d | 0 <= d < n
      ensures CpuOk(s', n, d)
    {
      assert CpuOk(s, n, d);
    }
  }

  lemma FlushKeeps(s: State, s': State, n: nat, c: nat)
    requires Inv(s, n) && Flush(s, s', n, c)
    ensures Inv(s', n)
  {
    InvalidatedClean(s.tlb[c], s.pc[c].q, s.pc[c].q, s.pc[c].k);
    assert Outstanding(s', n) == Outstanding(s, n);
    forall d | 0 <= d < n
      ensures CpuOk(s', n, d)
    {
      assert CpuOk(s, n, d);
    }
  }

  lemma FlushedKeeps(s: State, s': State, n: nat, c: nat)
    requires Inv(s, n) && Flushed(s, s', n, c)
    ensures Inv(s', n)
  {
    NoMorePages(s.tlb[c], s.pc[c].q, s.pc[c].q, s.pc[c].k);
    assert Outstanding(s', n) == Outstanding(s, n);
    forall d | 0 <= d < n
      ensures CpuOk(s', n, d)
    {
      assert CpuOk(s, n, d);
    }
  }

  lemma ReturnKeeps(s: State, s': State, n: nat, c: nat)
    requires Inv(s, n) && Return(s, s', n, c)
    ensures Inv(s', n)
  {
    NoneLeft(s, n);
    forall d | 0 <= d < n
      ensures CpuOk(s', n, d)
    {
      assert CpuOk(s, n, d);
    }
  }

  lemma InterruptKeeps(s: State, s': State, n: nat, c: nat)
    requires Inv(s, n) && Interrupt(s, s', n, c)
    ensures Inv(s', n)
  {
    assert Outstanding(s', n) == Outstanding(s, n);
    forall d | 0 <= d < n
      ensures CpuOk(s', n, d)
    {
      assert CpuOk(s, n, d);
    }
  }

  lemma HandleKeeps(s: State, s': State, n: nat, c: nat)
    requires Inv(s, n) && Handle(s, s', n, c)
    ensures Inv(s', n)
  {
    assert CpuOk(s, n, c);
    InvalidatedClean(s.tlb[c], s.pc[s.owner].q, s.handler[c].q, s.handler[c].k);
    assert Outstanding(s', n) == Outstanding(s, n);
    forall d | 0 <= d < n
      ensures CpuOk(s', n, d)
    {
      assert CpuOk(s, n, d);
    }
  }

  lemma HandledKeeps(s: State, s': State, n: nat, c: nat)
    requires Inv(s, n) && Handled(s, s', n, c)
    ensures Inv(s', n)
  {
    assert CpuOk(s, n, c);
    NoMorePages(s.tlb[c], s.pc[s.owner].q, s.handler[c].q, s.handler[c].k);
    assert Outstanding(s', n) == Outstanding(s, n);
    forall d | 0 <= d < n
      ensures CpuOk(s', n, d)
    {
      assert CpuOk(s, n, d);
    }
  }

  lemma DecrementKeeps(s: State, s': State, n: nat, c: nat)
    requires Inv(s, n) && Decrement(s, s', n, c)
    ensures Inv(s', n)
  {
    assert CpuOk(s, n, c);
    assert Outstanding(s', n) == Outstanding(s, n) - {c};
    forall d | 0 <= d < n
      ensures CpuOk(s', n, d)
    {
      assert CpuOk(s, n, d);
    }
  }

  ghost function Others(n: nat, c: nat): (w: set<nat>) {
    if n == 0 then {} else Others(n - 1, c) + (if n - 1 == c then {} else {n - 1})
  }

  lemma {:induction false} OthersAreAllButOne(n: nat, c: nat)
    ensures forall d: nat :: d in Others(n, c) <==> d < n && d != c
    ensures |Others(n, c)| == if c < n then n - 1 else n
  {
    if n > 0 { OthersAreAllButOne(n - 1, c); }
  }

  /** With no CPU outstanding, every CPU is clean. */
  lemma NoneLeft(s: State, n: nat)
    requires Inv(s, n) && Active(s, n) && s.remaining == 0 && s.pc[s.owner].Spinning?
    ensures forall d :: 0 <= d < n ==> Clean(s.tlb[d], s.pc[s.owner].q) && d !in s.pending && s.handler[d].None?
  {
    forall d | 0 <= d < n
      ensures Clean(s.tlb[d], s.pc[s.owner].q) && d !in s.pending && s.handler[d].None?
    {
      assert CpuOk(s, n, d) && d !in Outstanding(s, n);
    }
  }

  /** A round of do_invalidate on a request with the same range. */
  lemma InvalidatedClean(tlb: set<Cached>, q: Request, shared: Request, k: nat)
    requires CleanUpTo(tlb, q, k) && shared.page == q.page && shared.size == q.size && MorePages(q, k)
    ensures CleanUpTo(Invalidated1(tlb, shared, k), q, k + 1)
  {}

  lemma NoMorePages(tlb: set<Cached>, q: Request, shared: Request, k: nat)
    requires CleanUpTo(tlb, q, k) && shared.page == q.page && shared.size == q.size && !MorePages(shared, k)
    ensures Clean(tlb, q)
  {}

  // ----- Runs

  lemma InitInv(s: State, n: nat)
    requires Init(s, n)
    ensures Inv(s, n)
  {}

  lemma NextKeeps(s: State, s': State, n: nat)
    requires Inv(s, n) && Next(s, s', n)
    ensures Inv(s', n)
  {
    hide Inv, Load, Drop, Call, Acquire, StorePage, StoreSize, StoreRemaining, Send, Sent, Flush, Flushed, Return,
         Interrupt, Handle, Handled, Decrement;
    var c :| Step(s, s', n, c);
    if page :| Load(s, s', n, c, page) {
      LoadKeeps(s, s', n, c, page);
    } else if e :| Drop(s, s', n, c, e) {
      DropKeeps(s, s', n, c, e);
    } else if page, size :| Call(s, s', n, c, page, size) {
      CallKeeps(s, s', n, c, page, size);
    }
    if Acquire(s, s', n, c) { AcquireKeeps(s, s', n, c); }
    if StorePage(s, s', n, c) { StorePageKeeps(s, s', n, c); }
    if StoreSize(s, s', n, c) { StoreSizeKeeps(s, s', n, c); }
    if StoreRemaining(s, s', n, c) { StoreRemainingKeeps(s, s', n, c); }
    if Send(s, s', n, c) { SendKeeps(s, s', n, c); }
    if Sent(s, s', n, c) { SentKeeps(s, s', n, c); }
    if Flush(s, s', n, c) { FlushKeeps(s, s', n, c); }
    if Flushed(s, s', n, c) { FlushedKeeps(s, s', n, c); }
    if Return(s, s', n, c) { ReturnKeeps(s, s', n, c); }
    if Interrupt(s, s', n, c) { InterruptKeeps(s, s', n, c); }
    if Handle(s, s', n, c) { HandleKeeps(s, s', n, c); }
    if Handled(s, s', n, c) { HandledKeeps(s, s', n, c); }
    if Decrement(s, s', n, c) { DecrementKeeps(s, s', n, c); }
  }

  ghost predicate IsRun(run: seq<State>, n: nat) {
    run != [] && Init(run[0], n) && forall k :: 0 <= k < |run| - 1 ==> Next(run[k], run[k + 1], n)
  }

  lemma {:induction false} RunInv(run: seq<State>, n: nat, k: nat)
    requires IsRun(run, n) && k < |run|
    ensures Inv(run[k], n)
  {
    hide Init, Next, Inv;
    if k == 0 {
      InitInv(run[0], n);
    } else {
      RunInv(run, n, k - 1);
      NextKeeps(run[k - 1], run[k], n);
    }
  }

  /** Whatever the interleaving, when a call has returned no CPU holds a translation of its range
      that it held at the call. */
  lemma ShootdownComplete(run: seq<State>, n: nat, i: nat, k: nat, c: nat, page: nat, size: nat, d: nat, e: Cached)
    requires IsRun(run, n) && i < k < |run| && d < n && Shaped(run[i], n) && Shaped(run[k], n)
    requires Call(run[i], run[i + 1], n, c, page, size) && run[k].pc[c] == Returned(run[i + 1].pc[c].q)
    requires e in run[i].tlb[d] && Covers(Request(page, size, run[i].clock), e.page)
    ensures e !in run[k].tlb[d]
  {
    hide IsRun;
    RunInv(run, n, i);
    RunInv(run, n, k);
    assert Clean(run[k].tlb[d], run[k].pc[c].q);
    assert Stale(run[k].pc[c].q, e);
  }

  /** Requests do not overwrite each other: while a handler runs, the shared request is that of the
      one CPU that waits for it, and the counter is the number of CPUs that it waits for. */
  lemma RequestsApart(run: seq<State>, n: nat, k: nat, d: nat)
    requires IsRun(run, n) && k < |run| && d < n && Shaped(run[k], n)
    requires (d in run[k].pending || !run[k].handler[d].None?)
    ensures var s := run[k];
            && 0 <= s.owner < n && s.owner != d && Announced(s.pc[s.owner])
            && s.page == s.pc[s.owner].q.page && s.size == s.pc[s.owner].q.size
            && Exclusive(s, n) && s.remaining == |Outstanding(s, n)| && 0 < s.remaining
            && forall c :: 0 <= c < n && c != s.owner ==> !Critical(s.pc[c])
  {
    RunInv(run, n, k);
    assert CpuOk(run[k], n, d);
    assert d in Outstanding(run[k], n);
  }
}
