/** Whole runs of `valloc` and `vfree` from boot on, seen by a client that records which page
    runs it holds and for whom; and what translation does in every state such a run reaches. */
module PagingRuns {
  import opened FirstFit
  import opened TaskPids
  import opened Paging

  /** A page run held by a client, keyed by its first page. */
  datatype Holding = Holding(npages: nat, pid: nat)

  datatype Call = Valloc(req: PageReq) | Vfree(page: nat)

  datatype World = World(st: State, live: map<nat, Holding>)

  /** What the allocator asks of its callers: an owner that is not the free marker, a length
      that fits the `uint16_t` it is kept in, and a page run that is held. */
  predicate Allowed(w: World, call: Call) {
    match call
    case Valloc(req) =>
      req.pid != PID_RESV && (HowMany(req.size, 4096) < 0x1_0000 || HowMany(req.size, 4096) > |w.st.shadow|)
    case Vfree(page) => page in w.live
  }

  /** The arrays are large enough for the call to make sense; `RunsAgree` shows that this is
      never in question. */
  predicate InBounds(w: World, call: Call) {
    |w.st.shadow| + 1024 <= |w.st.words| && (call.Vfree? ==> call.page < |w.st.shadow|)
  }

  function Step(w: World, call: Call): World {
    if !InBounds(w, call) then w else
    match call
    case Valloc(req) =>
      var (r, st) := AfterValloc(w.st, req);
      World(st, if r.Pointer? then w.live[r.ptr / 4096 := Holding(HowMany(req.size, 4096), req.pid)] else w.live)
    case Vfree(page) => World(AfterVfree(w.st, page * 4096), w.live - {page})
  }

  predicate Covers(live: map<nat, Holding>, s: nat, p: nat) {
    s in live && s <= p < s + live[s].npages
  }

  /** Owner and page map agree: held runs lie above the kernel and inside the map, do not
      overlap, carry their owner and their length; every other page there is free. */
  ghost predicate Agrees(w: World, tables: nat) {
    && Tables(|w.st.shadow|) == tables && 0 < |w.st.shadow|
    && Mapped(w.st.words, tables)
    && OwnersAgree(w.st.shadow, w.live, KernelEnd(tables))
  }

  ghost predicate OwnersAgree(shadow: seq<Shadow>, live: map<nat, Holding>, kernelEnd: nat) {
    && kernelEnd <= |shadow|
    && (forall p | 0 <= p < kernelEnd :: shadow[p].pid == PID_KERNEL)
    && (forall s | s in live :: kernelEnd <= s && 0 < live[s].npages && s + live[s].npages <= |shadow|
                             && live[s].pid != PID_RESV && shadow[s].npages == live[s].npages)
    && (forall s: nat, p: nat | Covers(live, s, p) :: p < |shadow| && shadow[p].pid == live[s].pid)
    && (forall s: nat, s': nat, p: nat | Covers(live, s, p) && Covers(live, s', p) :: s == s')
    && (forall p | kernelEnd <= p < |shadow| && shadow[p].pid != PID_RESV :: exists s :: Covers(live, s, p))
  }

  lemma VallocKeepsOwners(shadow: seq<Shadow>, live: map<nat, Holding>, kernelEnd: nat, page: nat, n: nat, pid: nat)
    requires OwnersAgree(shadow, live, kernelEnd)
    requires 0 < n < 0x1_0000 && pid != PID_RESV && FreeRun(FreePages(shadow), page, n + 1)
    requires 0 < kernelEnd
    ensures OwnersAgree(Own(shadow, page, n, pid), live[page := Holding(n, pid)], kernelEnd)
    ensures page !in live && kernelEnd <= page
  {
    var free := FreePages(shadow);
    var live' := live[page := Holding(n, pid)];
    var shadow' := Own(shadow, page, n, pid);
    assert forall p | page <= p < page + n + 1 :: free[p];
    forall s: nat, p: nat | Covers(live, s, p) ensures !(page <= p < page + n) && shadow[p].pid != PID_RESV {
      assert free[p] <==> shadow[p].pid == PID_RESV;
    }
    assert kernelEnd <= page by { assert free[page] && shadow[page].pid == PID_RESV; }
    assert page !in live by {
      assert !Covers(live, page, page);
    }
    forall p | kernelEnd <= p < |shadow'| && shadow'[p].pid != PID_RESV ensures exists s :: Covers(live', s, p) {
      if page <= p < page + n {
        assert Covers(live', page, p);
      } else {
        var s :| Covers(live, s, p);
        assert Covers(live', s, p);
      }
    }
    forall s: nat, p: nat | Covers(live', s, p) ensures p < |shadow'| && shadow'[p].pid == live'[s].pid {
      assert s == page || Covers(live, s, p);
    }
    forall s: nat, s': nat, p: nat | Covers(live', s, p) && Covers(live', s', p) ensures s == s' {
      assert s == page || Covers(live, s, p);
      assert s' == page || Covers(live, s', p);
    }
  }

  /** `valloc` and `vfree` change flags only. */
  lemma AllocatorKeepsMapped(st: State, req: PageReq, page: nat, tables: nat)
    requires Mapped(st.words, tables) && 0 < |st.shadow| <= 1024 * tables
    ensures Mapped(AfterValloc(st, req).1.words, tables)
    ensures page < |st.shadow| ==> Mapped(AfterVfree(st, page * 4096).words, tables)
  {
    hide Present, DropUser, ConvertPtrToEntry, BootFrame, DirectoryOk, LowestRun;
    var n := HowMany(req.size, 4096);
    match LowestRun(FreePages(st.shadow), n + 1) {
      case None =>
      case Some(p) =>
        WalkReachesSlot(st.words, tables, p);
        ConvertKeepsFrame(Pte(st.words[Slot(p)].frame, 0), req.attr);
        FlagsKeepMapped(st.words, tables, p, Granted(st.words[Slot(p)], req.attr));
    }
    if page < |st.shadow| {
      WalkReachesSlot(st.words, tables, page);
      var e := st.words[Slot(page)];
      FlagsKeepMapped(st.words, tables, page, DropUser(e));
    }
  }

  /** A successful `valloc` takes the lowest run of one page more than it hands out. */
  lemma VallocEffect(w: World, req: PageReq) returns (page: nat)
    requires |w.st.shadow| + 1024 <= |w.st.words|
    ensures var n, r := HowMany(req.size, 4096), AfterValloc(w.st, req).0;
      && Step(w, Valloc(req)).st.shadow == (if r.Pointer? then Own(w.st.shadow, page, n, req.pid) else w.st.shadow)
      && Step(w, Valloc(req)).live == (if r.Pointer? then w.live[page := Holding(n, req.pid)] else w.live)
      && (r.Pointer? ==>
            0 < n <= |w.st.shadow| && r.ptr == page * 4096 && IsLowestRun(FreePages(w.st.shadow), page, n + 1))
  {
    match LowestRun(FreePages(w.st.shadow), HowMany(req.size, 4096) + 1)
    case None => page := 0;
    case Some(p) => page := p;
  }

  lemma VfreeEffect(w: World, page: nat)
    requires |w.st.shadow| + 1024 <= |w.st.words| && page < |w.st.shadow|
    ensures Step(w, Vfree(page)).st.shadow == Disown(w.st.shadow, page, w.st.shadow[page].npages)
    ensures Step(w, Vfree(page)).live == w.live - {page}
  {
  }

  lemma StepKeepsOwners(w: World, call: Call, kernelEnd: nat)
    requires OwnersAgree(w.st.shadow, w.live, kernelEnd) && 0 < kernelEnd && Allowed(w, call)
    requires |w.st.shadow| + 1024 <= |w.st.words|
    ensures call.Vfree? ==> call.page < |w.st.shadow|
    ensures |Step(w, call).st.shadow| == |w.st.shadow|
    ensures OwnersAgree(Step(w, call).st.shadow, Step(w, call).live, kernelEnd)
  {
    assert call.Vfree? ==>
      call.page < |w.st.shadow| && w.st.shadow[call.page].npages == w.live[call.page].npages;
    if call.Vfree? {
      VfreeEffect(w, call.page);
    }
    hide OwnersAgree, LowestRun, AfterVfree, Step;
    match call
    case Valloc(req) =>
      var page := VallocEffect(w, req);
      if AfterValloc(w.st, req).0.Pointer? {
        VallocKeepsOwners(w.st.shadow, w.live, kernelEnd, page, HowMany(req.size, 4096), req.pid);
      }
    case Vfree(page) =>
      VfreeKeepsOwners(w.st.shadow, w.live, kernelEnd, page);
  }

  lemma StepKeepsAgreement(w: World, call: Call, tables: nat)
    requires Agrees(w, tables) && Allowed(w, call)
    ensures call.Vfree? ==> call.page < |w.st.shadow|
    ensures Agrees(Step(w, call), tables)
  {
    StepKeepsOwners(w, call, KernelEnd(tables));
    match call
    case Valloc(req) => AllocatorKeepsMapped(w.st, req, 0, tables);
    case Vfree(page) => AllocatorKeepsMapped(w.st, PageReq(0, 0, 0), page, tables);
  }

  lemma VfreeKeepsOwners(shadow: seq<Shadow>, live: map<nat, Holding>, kernelEnd: nat, page: nat)
    requires OwnersAgree(shadow, live, kernelEnd) && page in live
    ensures OwnersAgree(Disown(shadow, page, live[page].npages), live - {page}, kernelEnd)
  {
    var n := live[page].npages;
    var live' := live - {page};
    var shadow' := Disown(shadow, page, n);
    forall s: nat, p: nat | Covers(live', s, p) ensures Covers(live, s, p) && !Covers(live, page, p) {
      assert Covers(live, s, p);
    }
    forall p | kernelEnd <= p < |shadow'| && shadow'[p].pid != PID_RESV ensures exists s :: Covers(live', s, p) {
      assert !Covers(live, page, p);
      var s :| Covers(live, s, p);
      assert Covers(live', s, p);
    }
  }

  function Run(boot: State, calls: seq<Call>): World {
    if calls == [] then World(boot, map[])
    else Step(Run(boot, calls[..|calls| - 1]), calls[|calls| - 1])
  }

  predicate Legal(boot: State, calls: seq<Call>) {
    calls == [] ||
    (Legal(boot, calls[..|calls| - 1]) && Allowed(Run(boot, calls[..|calls| - 1]), calls[|calls| - 1]))
  }

  lemma {:induction false} RunsAgree(boot: State, calls: seq<Call>, tables: nat)
    requires Booted(boot, tables) && Legal(boot, calls)
    ensures Agrees(Run(boot, calls), tables)
    ensures |Run(boot, calls).st.shadow| == |boot.shadow|
  {
    if calls == [] {
    } else {
      RunsAgree(boot, calls[..|calls| - 1], tables);
      StepKeepsAgreement(Run(boot, calls[..|calls| - 1]), calls[|calls| - 1], tables);
    }
  }

  /** Safety of whole runs: held page runs are disjoint, lie above the kernel and inside the
      map, and the map names exactly the owner of each page, or marks it free. */
  lemma RunsKeepPagesApart(boot: State, calls: seq<Call>, tables: nat, s: nat, s': nat, p: nat)
    requires Booted(boot, tables) && Legal(boot, calls)
    ensures var w := Run(boot, calls);
      && |w.st.shadow| == |boot.shadow|
      && (s in w.live ==> KernelEnd(tables) <= s && s + w.live[s].npages <= |boot.shadow|)
      && (s in w.live && s' in w.live && s < s' ==> s + w.live[s].npages <= s')
      && (p < KernelEnd(tables) ==> w.st.shadow[p].pid == PID_KERNEL)
      && (Covers(w.live, s, p) ==> p < |boot.shadow| && w.st.shadow[p].pid == w.live[s].pid != PID_RESV)
      && (KernelEnd(tables) <= p < |boot.shadow| && (forall o: nat :: !Covers(w.live, o, p)) ==>
            w.st.shadow[p].pid == PID_RESV)
  {
    RunsAgree(boot, calls, tables);
    var w := Run(boot, calls);
    if s in w.live && s' in w.live {
      assert Covers(w.live, s', s');
      assert s < s' < s + w.live[s].npages ==> Covers(w.live, s, s');
    }
  }

  // ---------- Translation ----------

  /** In every state a run reaches, translation is what boot made it; addresses beyond the
      tables are left as they are. */
  lemma RunsKeepTranslation(boot: State, calls: seq<Call>, tables: nat, vptr: nat)
    requires Booted(boot, tables) && Legal(boot, calls) && vptr < WORD
    ensures Mapped(Run(boot, calls).st.words, tables)
    ensures var page, off := vptr / 4096, vptr % 4096;
      Translate(Run(boot, calls).st.words, tables, vptr) ==
        if page >= 1024 * tables then vptr
        else if page < 0x211 + tables then 4096 * page + off
        else 4096 * (page - page / 1024) + off
  {
    RunsAgree(boot, calls, tables);
    TranslateMapped(Run(boot, calls).st.words, tables, vptr);
  }

  lemma TranslateMapped(w: seq<Pte>, tables: nat, vptr: nat)
    requires Mapped(w, tables) && vptr < WORD
    ensures Translate(w, tables, vptr) ==
      if vptr / 4096 < 1024 * tables then BootFrame(vptr / 4096, KernelEnd(tables)) * 4096 + vptr % 4096 else vptr
  {
    var p := vptr / 4096;
    assert vptr / 0x40_0000 == p / 1024;
    if p < 1024 * tables {
      assert 1024 * (p / 1024 + 1) + p % 1024 == Slot(p);
      assert Present(w[p / 1024]) && Present(w[Slot(p)]);
    } else {
      assert w[p / 1024] == Pte(0, 2);
    }
  }

  /** Boot does not map injectively: above the kernel two pages share a frame exactly when they
      are the last page of one table and the first of the next. */
  lemma PagesShareFrame(p: nat, q: nat, kernelEnd: nat)
    requires kernelEnd <= p < q
    ensures BootFrame(p, kernelEnd) == BootFrame(q, kernelEnd) <==> q == p + 1 && q % 1024 == 0
  {
  }

  lemma IntervalsShareFrame(s: nat, n: nat, s': nat, n': nat, kernelEnd: nat)
    requires kernelEnd <= s && 0 < n && s + n <= s' && 0 < n'
    ensures (exists p: nat, q: nat | s <= p < s + n && s' <= q < s' + n' ::
              BootFrame(p, kernelEnd) == BootFrame(q, kernelEnd))
      <==> s + n == s' && s' % 1024 == 0
  {
    forall p: nat, q: nat | s <= p < s + n && s' <= q < s' + n'
      ensures BootFrame(p, kernelEnd) == BootFrame(q, kernelEnd) ==> s + n == s' && s' % 1024 == 0
    {
      PagesShareFrame(p, q, kernelEnd);
    }
    PagesShareFrame(s' - 1, s', kernelEnd);
  }

  /** Two held runs share a frame exactly when they meet at a table boundary. */
  lemma HeldRunsShareFrame(boot: State, calls: seq<Call>, tables: nat, s: nat, s': nat)
    requires Booted(boot, tables) && Legal(boot, calls)
    requires s in Run(boot, calls).live && s' in Run(boot, calls).live && s < s'
    ensures var live := Run(boot, calls).live;
      (exists p: nat, q: nat | s <= p < s + live[s].npages && s' <= q < s' + live[s'].npages ::
         BootFrame(p, KernelEnd(tables)) == BootFrame(q, KernelEnd(tables)))
      <==> s + live[s].npages == s' && s' % 1024 == 0
  {
    RunsKeepPagesApart(boot, calls, tables, s, s', s);
    RunsAgree(boot, calls, tables);
    var live := Run(boot, calls).live;
    IntervalsShareFrame(s, live[s].npages, s', live[s'].npages, KernelEnd(tables));
  }

  /** An address of the run held at `s` leads to this byte of the machine. */
  ghost predicate LeadsTo(w: World, tables: nat, s: nat, v: nat, byteAddress: nat)
    requires DirectoryOk(w.st.words, tables)
  {
    v < WORD && Covers(w.live, s, v / 4096) && Translate(w.st.words, tables, v) == byteAddress
  }

  /** `vfree` clears every byte that an address of its run leads to. Some of those that freeing the
      run at `s` clears are bytes of the run at `s'`. */
  ghost predicate ClearsSome(w: World, tables: nat, s: nat, s': nat)
    requires DirectoryOk(w.st.words, tables)
  {
    exists u: nat, v: nat, byteAddress: nat ::
      LeadsTo(w, tables, s, u, byteAddress) && LeadsTo(w, tables, s', v, byteAddress)
  }

  ghost predicate ShareFrame(live: map<nat, Holding>, s: nat, s': nat, kernelEnd: nat) {
    exists p: nat, q: nat | Covers(live, s, p) && Covers(live, s', q) ::
      BootFrame(p, kernelEnd) == BootFrame(q, kernelEnd)
  }

  lemma FirstByteOf(w: World, tables: nat, s: nat, p: nat)
    requires Agrees(w, tables) && Covers(w.live, s, p)
    ensures LeadsTo(w, tables, s, 4096 * p, BootFrame(p, KernelEnd(tables)) * 4096)
  {
    CoveredIsMapped(w, tables, s, p);
    hide Agrees, Mapped, Translate, BootFrame, Covers, DirectoryOk;
    var v := 4096 * p;
    assert v / 4096 == p && v % 4096 == 0;
    TranslateMapped(w.st.words, tables, v);
  }

  lemma CoveredIsMapped(w: World, tables: nat, s: nat, p: nat)
    requires Agrees(w, tables) && Covers(w.live, s, p)
    ensures Mapped(w.st.words, tables) && DirectoryOk(w.st.words, tables) && p < 1024 * tables <= 0x10_0000
  {
  }

  lemma SameByteSameFrame(w: World, tables: nat, s: nat, s': nat, u: nat, v: nat, byteAddress: nat)
    requires Agrees(w, tables) && LeadsTo(w, tables, s, u, byteAddress) && LeadsTo(w, tables, s', v, byteAddress)
    ensures ShareFrame(w.live, s, s', KernelEnd(tables))
  {
    CoveredIsMapped(w, tables, s, u / 4096);
    CoveredIsMapped(w, tables, s', v / 4096);
    TranslateMapped(w.st.words, tables, u);
    TranslateMapped(w.st.words, tables, v);
    var f, g := BootFrame(u / 4096, KernelEnd(tables)), BootFrame(v / 4096, KernelEnd(tables));
    hide Agrees, Mapped, Translate, BootFrame, Covers, DirectoryOk;
    assert f * 4096 + u % 4096 == g * 4096 + v % 4096;
    assert f == g;
  }

  lemma ClearsThroughFrames(w: World, tables: nat, s: nat, s': nat)
    requires Agrees(w, tables)
    ensures ClearsSome(w, tables, s, s') <==> ShareFrame(w.live, s, s', KernelEnd(tables))
  {
    assert DirectoryOk(w.st.words, tables);
    hide LeadsTo, BootFrame, Covers, Mapped, OwnersAgree;
    if ShareFrame(w.live, s, s', KernelEnd(tables)) {
      var p: nat, q: nat :| Covers(w.live, s, p) && Covers(w.live, s', q)
        && BootFrame(p, KernelEnd(tables)) == BootFrame(q, KernelEnd(tables));
      FirstByteOf(w, tables, s, p);
      FirstByteOf(w, tables, s', q);
    }
    hide ShareFrame;
    forall u: nat, v: nat, a: nat | LeadsTo(w, tables, s, u, a) && LeadsTo(w, tables, s', v, a)
      ensures ShareFrame(w.live, s, s', KernelEnd(tables))
    {
      SameByteSameFrame(w, tables, s, s', u, v, a);
    }
  }

  /** Freeing a held run clears bytes of another held run exactly when the two meet at a table
      boundary, in either order. */
  lemma VfreeClearsNeighbour(boot: State, calls: seq<Call>, tables: nat, s: nat, s': nat)
    requires Booted(boot, tables) && Legal(boot, calls)
    requires s in Run(boot, calls).live && s' in Run(boot, calls).live && s != s'
    ensures var w := Run(boot, calls);
      && DirectoryOk(w.st.words, tables)
      && (ClearsSome(w, tables, s, s') <==>
            || (s + w.live[s].npages == s' && s' % 1024 == 0)
            || (s' + w.live[s'].npages == s && s % 1024 == 0))
  {
    RunsAgree(boot, calls, tables);
    var w := Run(boot, calls);
    var low, high := if s < s' then s else s', if s < s' then s' else s;
    assert high + w.live[high].npages != low by {
      RunsKeepPagesApart(boot, calls, tables, low, high, low);
    }
    HeldRunsShareFrame(boot, calls, tables, low, high);
    ClearsThroughFrames(w, tables, s, s');
  }

  /** No page a client can hold lands on a kernel frame, unless the machine needs so many page
      tables that the kernel's own pages reach into the second one. */
  lemma KernelFramesAreProtected(pages: nat)
    requires KernelEnd(Tables(pages)) <= pages
    ensures (forall p: nat, q: nat | q < KernelEnd(Tables(pages)) <= p < pages ::
              BootFrame(p, KernelEnd(Tables(pages))) != BootFrame(q, KernelEnd(Tables(pages))))
      <==> Tables(pages) <= 494
  {
    var end := KernelEnd(Tables(pages));
    if Tables(pages) > 494 {
      assert end < pages;
      assert BootFrame(end, end) == BootFrame(end - end / 1024, end);
    }
  }

  /** `paging_map` redirects one page and no other, whatever the attributes. */
  lemma MapThenTranslate(w: seq<Pte>, tables: nat, pptr: nat, vptr: nat, attr: bv8, other: nat)
    requires DirectoryOk(w, tables)
    requires vptr / 0x40_0000 < tables && pptr < WORD && other < WORD
    ensures var w' := w[Slot(vptr / 4096) := ConvertPtrToEntry(Pte(pptr / 4096, (pptr % 4096) as bv12), attr)];
      && DirectoryOk(w', tables)
      && Translate(w', tables, other) ==
           if other / 4096 == vptr / 4096 then pptr - pptr % 4096 + other % 4096 else Translate(w, tables, other)
  {
    var e := ConvertPtrToEntry(Pte(pptr / 4096, (pptr % 4096) as bv12), attr);
    ConvertKeepsFrame(Pte(pptr / 4096, (pptr % 4096) as bv12), attr);
    var w' := w[Slot(vptr / 4096) := e];
    var p := other / 4096;
    assert other / 0x40_0000 == p / 1024 && vptr / 0x40_0000 == vptr / 4096 / 1024;
    assert w'[p / 1024] == w[p / 1024];
    if p < 1024 * tables {
      assert 1024 * (p / 1024 + 1) + p % 1024 == Slot(p);
      assert Present(w[p / 1024]);
    }
  }

  // ---------- Freeing undoes allocating ----------

  /** `vfree(valloc(r))` puts every owner back exactly when the length fits its `uint16_t`. */
  lemma VfreeUndoesValloc(st: State, req: PageReq)
    requires |st.shadow| + 1024 <= |st.words| && req.pid != PID_RESV
    requires AfterValloc(st, req).0.Pointer?
    ensures var (r, st') := AfterValloc(st, req);
      && r.ptr / 4096 < |st.shadow| == |st'.shadow|
      && ((forall p | 0 <= p < |st.shadow| :: AfterVfree(st', r.ptr).shadow[p].pid == st.shadow[p].pid)
          <==> HowMany(req.size, 4096) < 0x1_0000)
  {
    var n := HowMany(req.size, 4096);
    var page := VallocEffect(World(st, map[]), req);
    var st' := AfterValloc(st, req).1;
    var back := AfterVfree(st', page * 4096).shadow;
    assert FreePages(st.shadow)[page];
    assert forall p | page <= p < page + n :: FreePages(st.shadow)[p];
    assert st'.shadow[page].npages == n % 0x1_0000;
    if n >= 0x1_0000 {
      var p := page + n % 0x1_0000;
      assert back[p].pid == req.pid && FreePages(st.shadow)[p];
    }
  }

  /** Repeating a successful request returns the same pages again exactly when the owner is the
      marker for a free page. */
  lemma ReservedOwnerIsNoOwner(st: State, req: PageReq)
    requires |st.shadow| + 1024 <= |st.words|
    requires AfterValloc(st, req).0.Pointer?
    ensures var (r, st') := AfterValloc(st, req);
      && |st'.shadow| + 1024 <= |st'.words|
      && (AfterValloc(st', req).0 == r <==> req.pid == PID_RESV)
  {
    var n := HowMany(req.size, 4096);
    var page := VallocEffect(World(st, map[]), req);
    var st' := AfterValloc(st, req).1;
    assert FreePages(st.shadow)[page];
    if req.pid == PID_RESV {
      forall p | 0 <= p < |st.shadow| ensures FreePages(st'.shadow)[p] == FreePages(st.shadow)[p] {
        assert page <= p < page + n ==> FreePages(st.shadow)[p];
      }
      assert FreePages(st'.shadow) == FreePages(st.shadow);
    } else {
      assert !FreePages(st'.shadow)[page];
      var page' := VallocEffect(World(st', map[]), req);
    }
  }

  /** With owners from `task_new_pid` that happens on every 255th identifier and no other. */
  lemma EveryTwoHundredFiftyFifthPid(st: State, size: nat, attr: bv8, n: nat)
    requires |st.shadow| + 1024 <= |st.words| && n > 0
    requires AfterValloc(st, PageReq(NthPid(n), attr, size)).0.Pointer?
    ensures var (r, st') := AfterValloc(st, PageReq(NthPid(n), attr, size));
      && |st'.shadow| + 1024 <= |st'.words|
      && (AfterValloc(st', PageReq(NthPid(n), attr, size)).0 == r <==> n % 255 == 0)
  {
    PidCycle(n);
    ReservedOwnerIsNoOwner(st, PageReq(NthPid(n), attr, size));
  }
}
