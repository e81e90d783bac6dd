/** What the limits of the page allocator mean on real machines: which have a shadow map that fits
    into the block heap, and on which a client can lose its pages' contents to a neighbour. */
module PagingLimits {
  import opened FirstFit
  import opened TaskPids
  import opened Paging
  import opened PagingRuns

  // ---------- Machines whose shadow map fits ----------

  /** The map takes three bytes for each page, and the block heap has 64 KiB. */
  predicate MapFits(pages: nat) { 3 * pages <= 0x1_0000 }

  /** Such a machine has at most 21845 pages and 22 page tables. */
  lemma FittingMachinesAreSmall(pages: nat)
    requires MapFits(pages)
    ensures pages <= 21845 && Tables(pages) <= 22
  {
  }

  /** There every successful request is undone exactly, ... */
  lemma VfreeAlwaysUndoesValloc(st: State, req: PageReq)
    requires MapFits(|st.shadow|) && |st.shadow| + 1024 <= |st.words| && req.pid != PID_RESV
    requires AfterValloc(st, req).0.Pointer?
    ensures var (r, st') := AfterValloc(st, req);
      && r.ptr / 4096 < |st.shadow| == |st'.shadow|
      && |AfterVfree(st', r.ptr).shadow| == |st.shadow|
      && forall p | 0 <= p < |st.shadow| :: AfterVfree(st', r.ptr).shadow[p].pid == st.shadow[p].pid
  {
    var page := VallocEffect(World(st, map[]), req);
    VfreeUndoesValloc(st, req);
  }

  /** ... client pages never land on kernel frames, ... */
  lemma KernelFramesAlwaysProtected(pages: nat, p: nat, q: nat)
    requires MapFits(pages) && q < KernelEnd(Tables(pages)) <= p < pages
    ensures BootFrame(p, KernelEnd(Tables(pages))) != BootFrame(q, KernelEnd(Tables(pages)))
  {
    FittingMachinesAreSmall(pages);
    KernelFramesAreProtected(pages);
  }

  /** ... and in every state a run reaches, a real owner is all that a request needs. */
  lemma AnyLengthIsAllowed(boot: State, calls: seq<Call>, tables: nat, req: PageReq)
    requires Booted(boot, tables) && Legal(boot, calls) && MapFits(|boot.shadow|)
    ensures Legal(boot, calls + [Valloc(req)]) <==> req.pid != PID_RESV
  {
    RunsAgree(boot, calls, tables);
    RunsKeepPagesApart(boot, calls, tables, 0, 0, 0);
    assert (calls + [Valloc(req)])[..|calls|] == calls;
  }

  // ---------- Machines on which a neighbour's bytes are cleared ----------

  /** The search wants one page more than it hands out, so no held run ends with the map. */
  lemma {:induction false} HeldRunsLeaveAPage(boot: State, calls: seq<Call>, tables: nat, s: nat)
    requires Booted(boot, tables) && Legal(boot, calls) && s in Run(boot, calls).live
    ensures KernelEnd(tables) <= s
    ensures 0 < Run(boot, calls).live[s].npages && s + Run(boot, calls).live[s].npages < |boot.shadow|
  {
    if calls == [] {
    } else {
      RunsAgree(boot, calls, tables);
      var before, call := calls[..|calls| - 1], calls[|calls| - 1];
      var w := Run(boot, before);
      RunsAgree(boot, before, tables);
      RunsKeepPagesApart(boot, before, tables, 0, 0, 0);
      hide Booted, Mapped, LowestRun;
      if s in w.live {
        HeldRunsLeaveAPage(boot, before, tables, s);
      }
      if call.Valloc? {
        var page := VallocEffect(w, call.req);
      }
    }
  }

  /** After these calls two runs are held, and freeing the one at `s` clears bytes of the other. */
  ghost predicate ClearsNeighbour(boot: State, calls: seq<Call>, tables: nat, s: nat, s': nat) {
    && Legal(boot, calls) && DirectoryOk(Run(boot, calls).st.words, tables)
    && s in Run(boot, calls).live && s' in Run(boot, calls).live && s != s'
    && ClearsSome(Run(boot, calls), tables, s, s')
  }

  /** It can happen exactly on machines with at least 1026 pages, which is a good 4 MiB. */
  lemma SomeRunClearsNeighbourIff(boot: State, tables: nat)
    requires Booted(boot, tables)
    ensures (exists calls, s, s' :: ClearsNeighbour(boot, calls, tables, s, s')) <==> |boot.shadow| >= 1026
  {
    hide Booted;
    if |boot.shadow| >= 1026 {
      var calls, s, s' := ClearingRun(boot, tables);
    }
    forall calls, s, s' | ClearsNeighbour(boot, calls, tables, s, s') ensures |boot.shadow| >= 1026 {
      ClearingNeedsPages(boot, calls, tables, s, s');
    }
  }

  lemma ClearingNeedsPages(boot: State, calls: seq<Call>, tables: nat, s: nat, s': nat)
    requires Booted(boot, tables) && ClearsNeighbour(boot, calls, tables, s, s')
    ensures |boot.shadow| >= 1026
  {
    VfreeClearsNeighbour(boot, calls, tables, s, s');
    HeldRunsLeaveAPage(boot, calls, tables, s);
    HeldRunsLeaveAPage(boot, calls, tables, s');
    hide Run, Legal, Booted, ClearsSome, DirectoryOk;
    if s % 1024 == 0 {
      MultipleOf1024(s);
    }
    if s' % 1024 == 0 {
      MultipleOf1024(s');
    }
  }

  lemma MultipleOf1024(s: nat)
    requires 0 < s && s % 1024 == 0
    ensures 1024 <= s
  {
  }

  /** With everything owned below it, a free stretch is what `valloc` hands out. */
  lemma TakesFirstPages(st: State, start: nat, n: nat)
    requires |st.shadow| + 1024 <= |st.words| && 0 < n && start + n < |st.shadow|
    requires forall p | 0 <= p < start :: st.shadow[p].pid != PID_RESV
    requires forall p | start <= p <= start + n :: st.shadow[p].pid == PID_RESV
    ensures AfterValloc(st, PageReq(1, 0, 4096 * n)).0 == Pointer(4096 * start)
    ensures AfterValloc(st, PageReq(1, 0, 4096 * n)).1.shadow == Own(st.shadow, start, n, 1)
  {
    assert HowMany(4096 * n, 4096) == n;
    var free, need := FreePages(st.shadow), n + 1;
    forall lower: nat | lower < start ensures !FreeRun(free, lower, need) {
      assert !free[lower];
    }
    LowestRunIsUnique(free, start, need);
  }

  /** Everything below `end` is owned, everything from there on is free. */
  predicate FilledUpTo(shadow: seq<Shadow>, end: nat) {
    forall p | 0 <= p < |shadow| :: shadow[p].pid == PID_RESV <==> end <= p
  }

  lemma OwnFills(shadow: seq<Shadow>, start: nat, n: nat)
    requires FilledUpTo(shadow, start)
    ensures FilledUpTo(Own(shadow, start, n, 1), start + n)
  {
  }

  /** One more granted request: the first free stretch becomes a held run. */
  lemma Grant(boot: State, calls: seq<Call>, tables: nat, start: nat, n: nat) returns (calls': seq<Call>)
    requires Booted(boot, tables) && Legal(boot, calls) && 0 < n < 0x1_0000 && start + n < |boot.shadow|
    requires |Run(boot, calls).st.shadow| == |boot.shadow| && FilledUpTo(Run(boot, calls).st.shadow, start)
    ensures Legal(boot, calls')
    ensures Run(boot, calls').live == Run(boot, calls).live[start := Holding(n, 1)]
    ensures |Run(boot, calls').st.shadow| == |boot.shadow| && FilledUpTo(Run(boot, calls').st.shadow, start + n)
  {
    hide Run, Legal, Booted, LowestRun, AfterValloc, FilledUpTo, Own;
    var w, call := Run(boot, calls), Valloc(PageReq(1, 0, 4096 * n));
    assert |w.st.shadow| + 1024 <= |w.st.words| by {
      RunsAgree(boot, calls, tables);
    }
    assert HowMany(4096 * n, 4096) == n;
    RunSnoc(boot, calls, call);
    calls' := calls + [call];
    FilledStretch(w.st.shadow, start, n);
    TakesFirstPages(w.st, start, n);
    OwnFills(w.st.shadow, start, n);
  }

  lemma RunSnoc(boot: State, calls: seq<Call>, call: Call)
    requires Legal(boot, calls) && Allowed(Run(boot, calls), call)
    ensures Legal(boot, calls + [call]) && Run(boot, calls + [call]) == Step(Run(boot, calls), call)
  {
    assert (calls + [call])[..|calls|] == calls;
  }

  lemma FilledStretch(shadow: seq<Shadow>, start: nat, n: nat)
    requires FilledUpTo(shadow, start) && start + n < |shadow|
    ensures forall p | 0 <= p < start :: shadow[p].pid != PID_RESV
    ensures forall p | start <= p <= start + n :: shadow[p].pid == PID_RESV
  {
  }

  /** All pages up to a table boundary, and one page behind it. */
  lemma ClearingRun(boot: State, tables: nat) returns (calls: seq<Call>, s: nat, s': nat)
    requires Booted(boot, tables) && |boot.shadow| >= 1026
    ensures ClearsNeighbour(boot, calls, tables, s, s')
  {
    s, s' := KernelEnd(tables), if KernelEnd(tables) < 1024 then 1024 else 2048;
    BoundaryInMap(boot, tables);
    assert Legal(boot, []) && Run(boot, []) == World(boot, map[]);
    hide Run, Legal, ClearsSome, Mapped;
    calls := Grant(boot, [], tables, s, s' - s);
    calls := Grant(boot, calls, tables, s', 1);
    hide Booted;
    VfreeClearsNeighbour(boot, calls, tables, s, s');
  }

  lemma BoundaryInMap(boot: State, tables: nat)
    requires Booted(boot, tables) && |boot.shadow| >= 1026
    ensures KernelEnd(tables) < 2048 && (KernelEnd(tables) >= 1024 ==> 2050 <= |boot.shadow|)
  {
  }
}
