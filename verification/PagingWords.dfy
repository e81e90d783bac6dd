/** What `valloc`, `vfree` and `paging_map` (core/memory/paging.c) do, spelled out in the bits of the
    page words and the entries of the shadow map. */
module PagingWords {
  import opened FirstFit
  import opened TaskPids
  import opened Paging
  import opened PagingRuns

  /** `n` pages from `start`, and the one behind them, are there and free. */
  predicate Fits(shadow: seq<Shadow>, start: nat, n: nat) {
    start + n < |shadow| && forall p | start <= p <= start + n :: shadow[p].pid == 0xFF
  }

  /** A request is for the least number of pages that holds its bytes. It is refused for none or for
      more than the machine has, stops the kernel without a stretch of one page more, and otherwise
      gets the lowest such stretch. Only then anything changes. */
  lemma VallocOutcome(st: State, req: PageReq) returns (n: nat)
    requires |st.shadow| + 1024 <= |st.words|
    ensures req.size <= 4096 * n && (0 < n ==> 4096 * (n - 1) < req.size)
    ensures var (r, st') := AfterValloc(st, req);
      && (r.Null? <==> n == 0 || n > |st.shadow|)
      && (r.Halt? <==> 0 < n <= |st.shadow| && forall start: nat :: !Fits(st.shadow, start, n))
      && (r.Pointer? ==>
            r.ptr % 4096 == 0 && Fits(st.shadow, r.ptr / 4096, n)
            && forall lower: nat | lower < r.ptr / 4096 :: !Fits(st.shadow, lower, n))
      && (!r.Pointer? ==> st' == st)
  {
    n := HowMany(req.size, 4096);
    var free, need := FreePages(st.shadow), n + 1;
    forall start: nat ensures Fits(st.shadow, start, n) <==> FreeRun(free, start, need) {
      assert start + n < |st.shadow| ==> forall p | start <= p <= start + n :: free[p] <==> st.shadow[p].pid == 0xFF;
    }
  }

  /** On success the first page's word keeps its frame and gets exactly the flags of the request, one
      bit higher, and `present`; every other word stays. The pages belong to the owner, and the
      first one remembers how many there are. */
  lemma VallocState(st: State, req: PageReq) returns (n: nat)
    requires |st.shadow| + 1024 <= |st.words| && AfterValloc(st, req).0.Pointer?
    ensures req.size <= 4096 * n && (0 < n ==> 4096 * (n - 1) < req.size)
    ensures var (r, st') := AfterValloc(st, req);
      var page := r.ptr / 4096;
      && page < |st.shadow| == |st'.shadow| && |st'.words| == |st.words|
      && (forall i | 0 <= i < |st.words| && i != 1024 + page :: st'.words[i] == st.words[i])
      && (forall p | 0 <= p < |st.shadow| ::
            && st'.shadow[p].pid == (if page <= p < page + n then req.pid else st.shadow[p].pid)
            && st'.shadow[p].npages == (if p == page then n % 0x1_0000 else st.shadow[p].npages))
    ensures var (r, st') := AfterValloc(st, req);
      var e := st'.words[1024 + r.ptr / 4096];
      && e.frame == st.words[1024 + r.ptr / 4096].frame
      && e.flags & 0x001 != 0
      && (e.flags & 0x002 != 0 <==> req.attr & 0x01 != 0)
      && (e.flags & 0x004 != 0 <==> req.attr & 0x02 != 0)
      && (e.flags & 0x008 != 0 <==> req.attr & 0x04 != 0)
      && (e.flags & 0x010 != 0 <==> req.attr & 0x08 != 0)
      && (e.flags & 0x020 != 0 <==> req.attr & 0x10 != 0)
      && (e.flags & 0x040 != 0 <==> req.attr & 0x20 != 0)
      && (e.flags & 0x080 != 0 <==> req.attr & 0x40 != 0)
      && (e.flags & 0x100 != 0 <==> req.attr & 0x80 != 0)
      && e.flags & 0xE00 == 0
  {
    n := HowMany(req.size, 4096);
    match LowestRun(FreePages(st.shadow), n + 1)
    case Some(page) =>
      var e := st.words[Slot(page)];
      ConvertKeepsFrame(Pte(e.frame, 0), req.attr);
      ZeroFlags();
      hide ConvertPtrToEntry, LowestRun, FreePages;
  }

  lemma ZeroFlags()
    ensures var z: bv12 := 0;
      && z & 0x002 == 0 && z & 0x008 == 0 && z & 0x010 == 0 && z & 0x020 == 0 && z & 0x040 == 0
      && z & 0x080 == 0 && z & 0x100 == 0 && z & 0xE00 == 0
  {
  }

  /** Freeing takes the user bit of the first page's word away and nothing else; every other word
      stays. As many pages as were remembered become free; all other owners, and all lengths,
      stay. */
  lemma VfreeState(st: State, ptr: nat)
    requires |st.shadow| + 1024 <= |st.words| && ptr / 4096 < |st.shadow|
    ensures var page, st' := ptr / 4096, AfterVfree(st, ptr);
      && |st'.words| == |st.words| && |st'.shadow| == |st.shadow|
      && (forall i | 0 <= i < |st.words| && i != 1024 + page :: st'.words[i] == st.words[i])
      && (forall p | 0 <= p < |st.shadow| ::
            && st'.shadow[p].pid == (if page <= p < page + st.shadow[page].npages then 0xFF else st.shadow[p].pid)
            && st'.shadow[p].npages == st.shadow[p].npages)
    ensures var e, e' := st.words[1024 + ptr / 4096], AfterVfree(st, ptr).words[1024 + ptr / 4096];
      e'.frame == e.frame && e'.flags & 4 == 0 && e'.flags | 4 == e.flags | 4
  {
    WithoutUserBit(st.words[1024 + ptr / 4096].flags);
  }

  lemma WithoutUserBit(flags: bv12)
    ensures (flags & 0xFFB) & 4 == 0 && (flags & 0xFFB) | 4 == flags | 4
  {
  }

  /** What `paging_map` writes: the frame of the physical address, present, and the attributes over
      the address's own low bits, but the user bit from the attributes alone. */
  lemma MapWord(pptr: nat, attr: bv8)
    ensures var e, low := ConvertPtrToEntry(Pte(pptr / 4096, (pptr % 4096) as bv12), attr), (pptr % 4096) as bv12;
      && e.frame == pptr / 4096
      && e.flags & 0x001 != 0
      && (e.flags & 0x002 != 0 <==> attr & 0x01 != 0 || low & 0x002 != 0)
      && (e.flags & 0x004 != 0 <==> attr & 0x02 != 0)
      && (e.flags & 0x008 != 0 <==> attr & 0x04 != 0 || low & 0x008 != 0)
      && (e.flags & 0x010 != 0 <==> attr & 0x08 != 0 || low & 0x010 != 0)
      && (e.flags & 0x020 != 0 <==> attr & 0x10 != 0 || low & 0x020 != 0)
      && (e.flags & 0x040 != 0 <==> attr & 0x20 != 0 || low & 0x040 != 0)
      && (e.flags & 0x080 != 0 <==> attr & 0x40 != 0 || low & 0x080 != 0)
      && (e.flags & 0x100 != 0 <==> attr & 0x80 != 0 || low & 0x100 != 0)
      && e.flags & 0xE00 == low & 0xE00
  {
    ConvertKeepsFrame(Pte(pptr / 4096, (pptr % 4096) as bv12), attr);
  }

  /** Translation in the words: through the page's word when it is present, and otherwise, or beyond
      the tables, the address itself. */
  lemma TranslateThroughWord(w: seq<Pte>, tables: nat, vptr: nat)
    requires DirectoryOk(w, tables) && vptr < 0x1_0000_0000
    ensures var page := vptr / 4096;
      Translate(w, tables, vptr) ==
        if page < 1024 * tables && w[1024 + page].flags & 1 != 0 then 4096 * w[1024 + page].frame + vptr % 4096
        else vptr
  {
    var page := vptr / 4096;
    assert vptr / 0x40_0000 == page / 1024;
    PresentFlags();
    if page < 1024 * tables {
      assert w[page / 1024] == Pte(DIR_FRAME + 1 + page / 1024, 3);
      assert 1024 * (page / 1024 + 1) + page % 1024 == 1024 + page;
      OneBit(w[1024 + page].flags);
    } else {
      assert w[page / 1024] == Pte(0, 2);
    }
  }

  lemma PresentFlags()
    ensures var present: bv12 := 3; present & 1 == 1
    ensures var absent: bv12 := 2; absent & 1 == 0
  {
  }

  lemma OneBit(flags: bv12)
    ensures flags & 1 != 0 <==> flags & 1 == 1
  {
  }

  /** How many pages and tables a machine gets: the whole pages of a thousand bytes for each KiB, so
      never more than there is, as long as those bytes fit a word; and just enough tables. */
  lemma PagesOfMachine(kib: nat)
    ensures 1000 * kib < 0x1_0000_0000 ==> 4096 * Pages(kib) <= 1000 * kib < 4096 * (Pages(kib) + 1)
    ensures 4096 * Pages(kib) <= 1024 * kib
    ensures Pages(kib + 0x2000_0000) == Pages(kib)
    ensures Pages(kib) <= 1024 * Tables(Pages(kib)) < Pages(kib) + 1024
  {
    WordWraps(1000 * kib);
  }

  lemma WordWraps(bytes: nat)
    ensures (bytes + 1000 * 0x2000_0000) % 0x1_0000_0000 == bytes % 0x1_0000_0000
    ensures bytes % 0x1_0000_0000 <= bytes
  {
  }
}
