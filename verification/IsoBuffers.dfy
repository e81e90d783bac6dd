/** The buffers of the ISO 9660 driver (core/drv/FS/iso9660.c): block heap first, pages when
    the heap refuses, and one free routine that tells the two apart by address. */
module IsoBuffers {
  import opened FirstFit
  import opened TaskPids
  import H = KernelHeap
  import R = HeapRuns
  import P = Paging
  import PR = PagingRuns
  import L = PagingLimits
  import W = PagingWords

  datatype Memory = Memory(blocks: seq<H.Entry>, pages: P.State)

  /** The request that `iso_allocate_bfr` makes when the heap refuses. */
  function PageRequest(size: nat): P.PageReq { P.PageReq(PID_KERNEL, 3, size) }

  function AfterAllocate(m: Memory, size: nat): (P.Outcome, Memory)
    requires |m.pages.shadow| + 1024 <= |m.pages.words|
  {
    var (ptr, blocks) := R.AfterMalloc(m.blocks, size);
    if ptr != H.NULL then (P.Pointer(ptr), m.(blocks := blocks))
    else
      var (r, pages) := P.AfterValloc(m.pages, PageRequest(size));
      (r, m.(pages := pages))
  }

  function AfterFreeBuffer(m: Memory, ptr: nat): Memory
    requires |m.pages.shadow| + 1024 <= |m.pages.words|
    requires ptr > H.MALLOC_END ==> ptr / 4096 < |m.pages.shadow|
  {
    if ptr > H.MALLOC_END then m.(pages := P.AfterVfree(m.pages, ptr))
    else m.(blocks := R.AfterFree(m.blocks, ptr))
  }

  class Buffers {
    const heap: H.Heap
    const pager: P.Pager

    constructor (heap: H.Heap, pager: P.Pager)
      ensures this.heap == heap && this.pager == pager
    {
      this.heap, this.pager := heap, pager;
    }

    ghost predicate Valid()
      reads this, heap, pager, heap.table, pager.words, pager.shadow
    {
      H.Valid(heap.table[..]) && pager.Valid()
    }

    ghost function Abstract(): Memory
      reads heap.table, pager.words, pager.shadow
    {
      Memory(heap.table[..], pager.Abstract())
    }

    /** `iso_allocate_bfr`. */
    method Allocate(size: nat) returns (r: P.Outcome)
      requires Valid() && (0 < H.Blocks(size) || H.StopsInTable(heap.table[..]))
      modifies heap.table, pager.words, pager.shadow
      ensures Valid()
      ensures (r, Abstract()) == AfterAllocate(old(Abstract()), size)
    {
      var ptr := heap.Kmalloc(size);
      if ptr != H.NULL {
        return P.Pointer(ptr);
      }
      r := pager.Valloc(PageRequest(size));
    }

    /** `iso_free_bfr`. */
    method Free(ptr: nat)
      requires Valid()
      requires ptr <= H.MALLOC_END ==> ptr == H.NULL || ptr in H.Live(heap.table[..])
      requires ptr > H.MALLOC_END ==>
        && ptr / 4096 < pager.shadow.Length
        && ptr / 4096 + pager.shadow[ptr / 4096].npages <= pager.shadow.Length
      modifies heap.table, pager.words, pager.shadow
      ensures Valid()
      ensures Abstract() == AfterFreeBuffer(old(Abstract()), ptr)
    {
      if ptr > H.MALLOC_END {
        pager.Vfree(ptr);
      } else {
        heap.Kfree(ptr);
      }
    }
  }

  /** Freeing a buffer always goes back to the allocator it came from: afterwards the block
      table is what it was, and so are all page owners as long as the page count fits
      16 bits. */
  lemma FreeUndoesAllocate(m: Memory, live: map<nat, PR.Holding>, tables: nat, size: nat)
    requires H.Valid(m.blocks) && 0 < H.Blocks(size) && HowMany(size, 4096) < 0x1_0000
    requires PR.Agrees(PR.World(m.pages, live), tables)
    requires AfterAllocate(m, size).0.Pointer?
    ensures var (r, m') := AfterAllocate(m, size);
      && |m'.pages.shadow| + 1024 <= |m'.pages.words|
      && (r.ptr > H.MALLOC_END ==> r.ptr / 4096 < |m'.pages.shadow|)
      && var back := AfterFreeBuffer(m', r.ptr);
      && back.blocks == m.blocks
      && |back.pages.shadow| == |m.pages.shadow|
      && forall p | 0 <= p < |m.pages.shadow| :: back.pages.shadow[p].pid == m.pages.shadow[p].pid
  {
    var (r, m') := AfterAllocate(m, size);
    R.FreeUndoesMalloc(m.blocks, size);
    if R.AfterMalloc(m.blocks, size).0 != H.NULL {
      HeapPointersAreLow(m.blocks, size);
    } else {
      var page := PR.VallocEffect(PR.World(m.pages, live), PageRequest(size));
      assert P.FreePages(m.pages.shadow)[page];
      assert P.KernelEnd(tables) <= page;
      PR.VfreeUndoesValloc(m.pages, PageRequest(size));
    }
  }

  lemma HeapPointersAreLow(t: seq<H.Entry>, size: nat)
    requires H.Valid(t) && 0 < H.Blocks(size)
    ensures R.AfterMalloc(t, size).0 <= H.MALLOC_END
  {
  }

  /** A buffer is long enough exactly when the request did not wrap the heap's block count or
      the heap refused it: from 131073 bytes on the heap may grant too little. */
  lemma BufferCoversRequest(m: Memory, size: nat)
    requires H.Valid(m.blocks) && 0 < H.Blocks(size)
    requires |m.pages.shadow| + 1024 <= |m.pages.words|
    requires AfterAllocate(m, size).0.Pointer?
    ensures var (r, m') := AfterAllocate(m, size);
      var fromHeap := R.AfterMalloc(m.blocks, size).0 != H.NULL;
      && (fromHeap ==>
            && r.ptr in H.Live(m'.blocks)
            && (size <= H.BLOCK_SIZE * H.Live(m'.blocks)[r.ptr] <==> size <= 255 * H.BLOCK_SIZE))
      && (!fromHeap ==>
            exists page: nat, n: nat ::
              && r.ptr == page * 4096 && size <= n * 4096
              && m'.pages.shadow == P.Own(m.pages.shadow, page, n, PID_KERNEL))
  {
    R.CoversUpTo255Blocks(size);
    match LowestRun(H.FreeMap(m.blocks), H.Blocks(size)) {
      case Some(start) =>
        H.ClaimKeepsValid(m.blocks, start, H.Blocks(size));
        H.ClaimAddsRegion(m.blocks, start, H.Blocks(size));
      case None =>
        var page := PR.VallocEffect(PR.World(m.pages, map[]), PageRequest(size));
    }
  }

  /** Pages for a buffer are writable and accessible to users, and belong to the kernel. */
  lemma PageBufferWord(m: Memory, size: nat)
    requires |m.pages.shadow| + 1024 <= |m.pages.words|
    requires R.AfterMalloc(m.blocks, size).0 == H.NULL && AfterAllocate(m, size).0.Pointer?
    ensures var (r, m') := AfterAllocate(m, size);
      && m'.blocks == m.blocks && r.ptr % 4096 == 0
      && r.ptr / 4096 < |m.pages.shadow| == |m'.pages.shadow| && |m'.pages.words| == |m.pages.words|
      && (forall p | 0 <= p < |m.pages.shadow| && 4096 * p < 4096 * (r.ptr / 4096) + size && r.ptr / 4096 <= p ::
            m'.pages.shadow[p].pid == 0)
      && var e := m'.pages.words[1024 + r.ptr / 4096];
      && e.frame == m.pages.words[1024 + r.ptr / 4096].frame
      && e.flags & 0x001 != 0 && e.flags & 0x002 != 0 && e.flags & 0x004 != 0
      && e.flags & 0x008 == 0 && e.flags & 0x010 == 0 && e.flags & 0x020 == 0
      && e.flags & 0x040 == 0 && e.flags & 0x080 == 0 && e.flags & 0x100 == 0 && e.flags & 0xE00 == 0
  {
    var k := W.VallocOutcome(m.pages, PageRequest(size));
    var n := W.VallocState(m.pages, PageRequest(size));
    hide P.AfterValloc, R.AfterMalloc;
    AttributesOfBuffers();
  }

  lemma AttributesOfBuffers()
    ensures var attr: bv8 := 3;
      && attr & 0x01 != 0 && attr & 0x02 != 0 && attr & 0x04 == 0 && attr & 0x08 == 0
      && attr & 0x10 == 0 && attr & 0x20 == 0 && attr & 0x40 == 0 && attr & 0x80 == 0
  {
  }

  /** The shadow map itself comes from the block heap: three bytes for each page, on a table
      that `memory_init` has just cleared. It fits exactly up to 64 KiB. */
  lemma ShadowMapFits(pages: nat)
    requires pages > 0
    ensures var (ptr, t) := R.AfterMalloc(H.EmptyTable(), 3 * pages);
      (0 < H.Blocks(3 * pages) && ptr != H.NULL && ptr in H.Live(t) && 3 * pages <= H.BLOCK_SIZE * H.Live(t)[ptr])
      <==> L.MapFits(pages)
  {
    var n := H.Blocks(3 * pages);
    R.CoversUpTo255Blocks(3 * pages);
    if 0 < n <= H.TABLE_LENGTH {
      LowestRunIsUnique(H.FreeMap(H.EmptyTable()), 0, n);
      H.ClaimAddsRegion(H.EmptyTable(), 0, n);
    }
  }

  /** A map that is granted although it does not fit reaches into the page directory, which lies
      right behind the heap. */
  lemma LargeMapReachesDirectory(pages: nat)
    requires 0 < H.Blocks(3 * pages)
    requires R.AfterMalloc(H.EmptyTable(), 3 * pages).0 != H.NULL
    ensures H.MALLOC_END == 4096 * P.DIR_FRAME
    ensures R.AfterMalloc(H.EmptyTable(), 3 * pages).0 + 3 * pages > H.MALLOC_END <==> !L.MapFits(pages)
  {
    R.FirstRequest(3 * pages);
  }

  // ---------- Runs over both allocators ----------

  datatype Call = Allocate(size: nat) | Free(ptr: nat)

  /** Both allocators with what their clients hold. */
  datatype World = World(heap: R.World, pages: PR.World)

  /** What each allocator asks of its callers; a buffer that is freed is held, or NULL. */
  predicate Allowed(w: World, call: Call) {
    match call
    case Allocate(size) =>
      R.Allowed(w.heap, R.Malloc(size)) && PR.Allowed(w.pages, PR.Valloc(PageRequest(size)))
    case Free(ptr) => ptr == H.NULL || Held(w, ptr)
  }

  predicate FromHeap(w: World, ptr: nat) { ptr in w.heap.ledger }

  predicate FromPages(w: World, ptr: nat) { ptr % 4096 == 0 && ptr / 4096 in w.pages.live }

  predicate Held(w: World, ptr: nat) { FromHeap(w, ptr) || FromPages(w, ptr) }

  /** The bytes that the allocator set aside for a held buffer. */
  function Length(w: World, ptr: nat): nat
    requires Held(w, ptr)
  {
    if FromHeap(w, ptr) then 512 * H.Blocks(w.heap.ledger[ptr]) else 4096 * w.pages.live[ptr / 4096].npages
  }

  /** `iso_free_bfr` chooses by the address. */
  function Step(w: World, call: Call): World {
    match call
    case Allocate(size) =>
      if R.AfterMalloc(w.heap.table, size).0 != H.NULL then w.(heap := R.Step(w.heap, R.Malloc(size)))
      else w.(pages := PR.Step(w.pages, PR.Valloc(PageRequest(size))))
    case Free(ptr) =>
      if ptr > H.MALLOC_END then w.(pages := PR.Step(w.pages, PR.Vfree(ptr / 4096)))
      else w.(heap := R.Step(w.heap, R.Free(ptr)))
  }

  function Run(w: World, calls: seq<Call>): World {
    if calls == [] then w else Step(Run(w, calls[..|calls| - 1]), calls[|calls| - 1])
  }

  predicate Legal(w: World, calls: seq<Call>) {
    calls == [] ||
    (Legal(w, calls[..|calls| - 1]) && Allowed(Run(w, calls[..|calls| - 1]), calls[|calls| - 1]))
  }

  ghost predicate Agrees(w: World, tables: nat) { R.Agrees(w.heap) && PR.Agrees(w.pages, tables) }

  /** The address tells where a held buffer came from. */
  lemma AddressTellsOrigin(w: World, tables: nat, ptr: nat)
    requires Agrees(w, tables)
    ensures FromHeap(w, ptr) ==> H.MALLOC_START <= ptr < H.MALLOC_END
    ensures FromPages(w, ptr) ==> H.MALLOC_END < ptr
  {
    if FromHeap(w, ptr) {
      R.AgreementIsSafe(w.heap, ptr, ptr);
    }
  }

  lemma StepKeepsAgreement(w: World, call: Call, tables: nat)
    requires Agrees(w, tables) && Allowed(w, call)
    ensures Agrees(Step(w, call), tables)
  {
    hide R.Agrees, PR.Agrees, R.Step, PR.Step;
    match call
    case Allocate(size) =>
      R.StepKeepsAgreement(w.heap, R.Malloc(size));
      PR.StepKeepsAgreement(w.pages, PR.Valloc(PageRequest(size)), tables);
    case Free(ptr) =>
      AddressTellsOrigin(w, tables, ptr);
      if ptr > H.MALLOC_END {
        PR.StepKeepsAgreement(w.pages, PR.Vfree(ptr / 4096), tables);
      } else {
        R.StepKeepsAgreement(w.heap, R.Free(ptr));
      }
  }

  /** A step is what the two methods do to the memory. */
  lemma StepRefines(w: World, call: Call, tables: nat)
    requires Agrees(w, tables) && Allowed(w, call)
    ensures var m, w' := Memory(w.heap.table, w.pages.st), Step(w, call);
      && |m.pages.shadow| + 1024 <= |m.pages.words|
      && match call
         case Allocate(size) => Memory(w'.heap.table, w'.pages.st) == AfterAllocate(m, size).1
         case Free(ptr) =>
           && (ptr > H.MALLOC_END ==> ptr / 4096 < |m.pages.shadow|)
           && Memory(w'.heap.table, w'.pages.st) == AfterFreeBuffer(m, ptr)
  {
    InBounds(w, tables);
    if call.Free? {
      AddressTellsOrigin(w, tables, call.ptr);
    }
    hide Agrees, P.AfterVfree, P.AfterValloc, R.AfterMalloc, R.AfterFree;
    if call.Free? && call.ptr > H.MALLOC_END {
      assert call.ptr / 4096 * 4096 == call.ptr;
    }
  }

  /** The arrays are large enough for every held page. */
  lemma InBounds(w: World, tables: nat)
    requires Agrees(w, tables)
    ensures |w.pages.st.shadow| + 1024 <= |w.pages.st.words|
    ensures forall page | page in w.pages.live :: page < |w.pages.st.shadow|
  {
  }

  /** A granted buffer is held from then on, was not held before, and is long enough, with less than a
      block or a page to spare; but from the heap only up to 130560 bytes. */
  lemma GrantedBuffer(w: World, size: nat, tables: nat)
    requires Agrees(w, tables) && 0 < size && 0 < H.Blocks(size)
    requires |w.pages.st.shadow| + 1024 <= |w.pages.st.words|
    requires AfterAllocate(Memory(w.heap.table, w.pages.st), size).0.Pointer?
    ensures var ptr, w' := AfterAllocate(Memory(w.heap.table, w.pages.st), size).0.ptr, Step(w, Allocate(size));
      && !Held(w, ptr) && Held(w', ptr)
      && (FromHeap(w', ptr) ==> (size <= Length(w', ptr) <==> size <= 130560))
      && (FromHeap(w', ptr) && size <= 130560 ==> Length(w', ptr) < size + 512)
      && (!FromHeap(w', ptr) ==> size <= Length(w', ptr) < size + 4096)
  {
    var m := Memory(w.heap.table, w.pages.st);
    if R.AfterMalloc(m.blocks, size).0 != H.NULL {
      GrantedFromHeap(w, size, tables);
    } else {
      GrantedFromPages(w, size, tables);
    }
  }

  lemma GrantedFromHeap(w: World, size: nat, tables: nat)
    requires Agrees(w, tables) && 0 < H.Blocks(size) && R.AfterMalloc(w.heap.table, size).0 != H.NULL
    ensures var ptr, w' := R.AfterMalloc(w.heap.table, size).0, Step(w, Allocate(size));
      && !Held(w, ptr) && FromHeap(w', ptr)
      && (size <= Length(w', ptr) <==> size <= 130560)
      && (size <= 130560 ==> Length(w', ptr) < size + 512)
  {
    match LowestRun(H.FreeMap(w.heap.table), H.Blocks(size))
    case Some(start) =>
      H.ClaimAddsRegion(w.heap.table, start, H.Blocks(size));
      AddressTellsOrigin(w, tables, H.Address(start));
      R.CoversUpTo255Blocks(size);
      hide H.Claim, LowestRun, Agrees;
  }

  lemma GrantedFromPages(w: World, size: nat, tables: nat)
    requires Agrees(w, tables) && 0 < size && R.AfterMalloc(w.heap.table, size).0 == H.NULL
    requires |w.pages.st.shadow| + 1024 <= |w.pages.st.words|
    requires P.AfterValloc(w.pages.st, PageRequest(size)).0.Pointer?
    ensures var ptr, w' := P.AfterValloc(w.pages.st, PageRequest(size)).0.ptr, Step(w, Allocate(size));
      && !Held(w, ptr) && FromPages(w', ptr) && !FromHeap(w', ptr)
      && size <= Length(w', ptr) < size + 4096
  {
    hide P.AfterValloc, R.AfterMalloc, LowestRun, Agrees, PR.Step, R.Step;
    var page := PR.VallocEffect(w.pages, PageRequest(size));
    var n := HowMany(size, 4096);
    PageWasFree(w, tables, page, n);
    assert 4096 * page / 4096 == page && 4096 * page % 4096 == 0;
  }

  lemma PageWasFree(w: World, tables: nat, page: nat, n: nat)
    requires Agrees(w, tables) && IsLowestRun(P.FreePages(w.pages.st.shadow), page, n + 1)
    ensures page !in w.pages.live && 4096 * page !in w.heap.ledger
  {
    assert P.FreePages(w.pages.st.shadow)[page];
    assert page in w.pages.live ==> PR.Covers(w.pages.live, page, page);
    AddressTellsOrigin(w, tables, 4096 * page);
  }

  /** In any run over both allocators, from any state in which they agree with their clients:
      the address of a held buffer always tells which of them it came from, so that freeing it
      goes back there, and no two held buffers overlap. */
  lemma {:induction false} RunsKeepBuffersApart(w: World, calls: seq<Call>, tables: nat)
    requires Agrees(w, tables) && Legal(w, calls)
    ensures var w' := Run(w, calls);
      && Agrees(w', tables)
      && (forall a: nat | Held(w', a) :: FromPages(w', a) <==> a > H.MALLOC_END)
      && (forall a: nat, b: nat | Held(w', a) && Held(w', b) && a < b :: a + Length(w', a) <= b)
  {
    if calls == [] {
    } else {
      RunsKeepBuffersApart(w, calls[..|calls| - 1], tables);
      StepKeepsAgreement(Run(w, calls[..|calls| - 1]), calls[|calls| - 1], tables);
    }
    var w' := Run(w, calls);
    hide Run, Legal, Agrees, FromHeap, FromPages, Length;
    forall a: nat | Held(w', a) ensures FromPages(w', a) <==> a > H.MALLOC_END {
      AddressTellsOrigin(w', tables, a);
    }
    forall a: nat, b: nat | Held(w', a) && Held(w', b) && a < b ensures a + Length(w', a) <= b {
      HeldBuffersAreApart(w', tables, a, b);
    }
  }

  lemma HeldBuffersAreApart(w: World, tables: nat, a: nat, b: nat)
    requires Agrees(w, tables) && Held(w, a) && Held(w, b) && a < b
    ensures a + Length(w, a) <= b
  {
    AddressTellsOrigin(w, tables, a);
    AddressTellsOrigin(w, tables, b);
    if FromHeap(w, a) {
      R.AgreementIsSafe(w.heap, a, if FromHeap(w, b) then b else a);
    } else {
      assert PR.Covers(w.pages.live, b / 4096, b / 4096);
      assert !PR.Covers(w.pages.live, a / 4096, b / 4096);
    }
  }
}
