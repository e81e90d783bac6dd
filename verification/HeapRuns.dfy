/** Whole runs of `kmalloc` and `kfree`, seen by a client that remembers which pointers it
    holds and how many bytes it asked for. */
module HeapRuns {
  import opened FirstFit
  import opened KernelHeap

  datatype Call = Malloc(size: nat) | Free(ptr: nat)

  /** The block table, and the client's own record: pointer to requested bytes. */
  datatype World = World(table: seq<Entry>, ledger: map<int, nat>)

  function Boot(): World { World(EmptyTable(), map[]) }

  /** The pointer `kmalloc(size)` returns and the table it leaves. */
  function AfterMalloc(t: seq<Entry>, size: nat): (nat, seq<Entry>) {
    if Blocks(size) == 0 then (if StopsInTable(t) then BehindFirstUsed(t).loc else NULL, t)
    else
      match LowestRun(FreeMap(t), Blocks(size))
      case None => (NULL, t)
      case Some(start) => (Address(start), Claim(t, start, Blocks(size)))
  }

  function AfterFree(t: seq<Entry>, ptr: nat): seq<Entry> {
    if ptr == NULL then t else Release(t, ptr)
  }

  /** What the allocator asks of its callers: a size whose block count has not wrapped to zero
      while the search for zero blocks would leave the table, and a pointer that is NULL or held. */
  predicate Allowed(w: World, call: Call) {
    match call
    case Malloc(size) => 0 < Blocks(size) || StopsInTable(w.table)
    case Free(ptr) => ptr == NULL || ptr in w.ledger
  }

  /** A request that wraps to zero blocks gives the client nothing to hold. */
  function Step(w: World, call: Call): World {
    match call
    case Malloc(size) =>
      var (ptr, t) := AfterMalloc(w.table, size);
      World(t, if ptr == NULL || Blocks(size) == 0 then w.ledger else w.ledger[ptr := size])
    case Free(ptr) => World(AfterFree(w.table, ptr), w.ledger - {ptr as int})
  }

  function Run(calls: seq<Call>): World {
    if calls == [] then Boot() else Step(Run(calls[..|calls| - 1]), calls[|calls| - 1])
  }

  predicate Legal(calls: seq<Call>) {
    calls == [] ||
    (Legal(calls[..|calls| - 1]) && Allowed(Run(calls[..|calls| - 1]), calls[|calls| - 1]))
  }

  /** The table is sound and stands for exactly what the client holds. */
  ghost predicate Agrees(w: World) {
    && Valid(w.table)
    && w.ledger.Keys == Live(w.table).Keys
    && forall ptr | ptr in w.ledger :: Live(w.table)[ptr] == Blocks(w.ledger[ptr])
  }

  lemma StepKeepsAgreement(w: World, call: Call)
    requires Agrees(w) && Allowed(w, call)
    ensures Agrees(Step(w, call))
  {
    match call
    case Malloc(size) =>
      if 0 < Blocks(size) {
        match LowestRun(FreeMap(w.table), Blocks(size)) {
          case None =>
          case Some(start) =>
            ClaimKeepsValid(w.table, start, Blocks(size));
            ClaimAddsRegion(w.table, start, Blocks(size));
        }
      }
    case Free(ptr) =>
      if ptr != NULL {
        ReleaseKeepsValid(w.table, ptr);
        ReleaseRemovesRegion(w.table, ptr);
      }
  }

  /** Refinement: after every legal run the table stands for the client's ledger. */
  lemma {:induction false} RunsRefineLedger(calls: seq<Call>)
    requires Legal(calls)
    ensures Agrees(Run(calls))
  {
    if calls == [] {
    } else {
      RunsRefineLedger(calls[..|calls| - 1]);
      StepKeepsAgreement(Run(calls[..|calls| - 1]), calls[|calls| - 1]);
    }
  }

  /** Safety of whole runs: regions the client holds lie in the malloc space, do not overlap,
      and cover the bytes asked for exactly when those do not exceed 255 blocks. */
  lemma RunsAreSafe(calls: seq<Call>, p: int, q: int)
    requires Legal(calls)
    requires p in Run(calls).ledger && q in Run(calls).ledger
    ensures var size := BLOCK_SIZE * Blocks(Run(calls).ledger[p]);
      && MALLOC_START <= p && p + size <= MALLOC_END
      && (p < q ==> p + size <= q)
      && (Run(calls).ledger[p] <= size <==> Run(calls).ledger[p] <= 255 * BLOCK_SIZE)
  {
    RunsRefineLedger(calls);
    AgreementIsSafe(Run(calls), p, q);
  }

  lemma AgreementIsSafe(w: World, p: int, q: int)
    requires Agrees(w) && p in w.ledger && q in w.ledger
    ensures var size := BLOCK_SIZE * Blocks(w.ledger[p]);
      && MALLOC_START <= p && p + size <= MALLOC_END && 0 < size
      && (p < q ==> p + size <= q)
      && (w.ledger[p] <= size <==> w.ledger[p] <= 255 * BLOCK_SIZE)
  {
    var i := RegionOf(w.table, p);
    var j := RegionOf(w.table, q);
    assert w.table[j].loc == q;
    CoversUpTo255Blocks(w.ledger[p]);
  }

  /** A region covers the request unless the `uint8_t` block count wrapped. */
  lemma CoversUpTo255Blocks(size: nat)
    ensures size <= BLOCK_SIZE * Blocks(size) <==> size <= 255 * BLOCK_SIZE
  {
    if size > 255 * BLOCK_SIZE {
      assert Blocks(size) <= 255;
    } else {
      assert HowMany(size, BLOCK_SIZE) <= 255;
    }
  }

  // ---------- How much a request takes ----------

  /** `n` entries from `start` are there and clear. */
  predicate Room(t: seq<Entry>, start: nat, n: nat) {
    start + n <= |t| && forall i | start <= i < start + n :: t[i].loc == NULL
  }

  /** A request of 1 to 130560 bytes takes the least number of 512-byte blocks that holds them, at the
      lowest place with room for them, and fails exactly without such a place. Afterwards exactly
      those entries carry the pointer, and no other entry has changed. */
  lemma MallocTakesLeastBlocks(t: seq<Entry>, size: nat) returns (n: nat)
    requires Valid(t) && 0 < size <= 130560
    ensures 512 * (n - 1) < size <= 512 * n
    ensures var (ptr, t') := AfterMalloc(t, size);
      && |t'| == |t|
      && (ptr == NULL <==> forall start: nat :: !Room(t, start, n))
      && (ptr == NULL ==> t' == t)
      && (ptr != NULL ==>
            exists start: nat ::
              && Room(t, start, n) && (forall lower: nat | lower < start :: !Room(t, lower, n))
              && ptr == 0x200000 + 512 * start
              && (forall i | 0 <= i < |t| :: t'[i].loc == ptr <==> start <= i < start + n)
              && (forall i | start <= i < start + n :: t'[i].size == n)
              && (forall i | 0 <= i < |t| && !(start <= i < start + n) :: t'[i] == t[i]))
  {
    n := Blocks(size);
    var free := FreeMap(t);
    forall start: nat ensures Room(t, start, n) <==> FreeRun(free, start, n) {
      assert start + n <= |t| ==> forall i | start <= i < start + n :: free[i] <==> t[i].loc == NULL;
    }
    match LowestRun(free, n) {
      case None =>
      case Some(start) =>
        assert Room(t, start, n);
        ClaimedEntries(t, start, n);
    }
  }

  lemma ClaimedEntries(t: seq<Entry>, start: nat, n: nat)
    requires Valid(t) && 0 < n && Room(t, start, n)
    ensures forall i | 0 <= i < |t| :: Claim(t, start, n)[i].loc == Address(start) <==> start <= i < start + n
  {
    assert t[start].loc == NULL;
    forall i: nat | i < |t| && t[i].loc != NULL ensures t[i].loc != Address(start) {
      var first := ExtentOf(t, i);
      assert t[first].loc == t[i].loc == Address(first);
    }
  }

  /** The count is one byte, so every 131072 bytes it starts again. */
  lemma BlocksRepeat(size: nat)
    ensures Blocks(size + 131072) == Blocks(size)
  {
    assert HowMany(size + 131072, 512) == HowMany(size, 512) + 256;
  }

  // ---------- Who gets a pointer ----------

  /** In every state a run reaches, a pointer that `kmalloc` returns is one that nobody holds if and
      only if the request did not wrap to zero blocks. A request that did returns the pointer of
      the entry behind the first used one, which somebody holds exactly when that entry is in use. */
  lemma PointerIsFreshIff(calls: seq<Call>, size: nat)
    requires Legal(calls)
    ensures var w := Run(calls);
      var (ptr, t) := AfterMalloc(w.table, size);
      Allowed(w, Malloc(size)) ==>
        && (ptr != NULL ==> (ptr !in w.ledger <==> 0 < Blocks(size)))
        && (Blocks(size) == 0 ==> t == w.table && (ptr in w.ledger <==> BehindFirstUsed(w.table).loc != NULL))
  {
    RunsRefineLedger(calls);
    var t := Run(calls).table;
    if !Allowed(Run(calls), Malloc(size)) {
    } else if Blocks(size) == 0 {
      var used := LowestRun(UsedMap(t), 1).value;
      if t[used + 1].loc != NULL {
        UsedEntryIsLive(t, used + 1);
      } else {
        assert NULL !in Live(t);
      }
    } else {
      match LowestRun(FreeMap(t), Blocks(size))
      case None =>
      case Some(start) => ClaimAddsRegion(t, start, Blocks(size));
    }
  }

  /** The entry in question, when some entry but the last is in use. */
  lemma BehindFirstUsedIs(t: seq<Entry>, used: nat)
    requires used + 1 < |t| && t[used].loc != NULL && forall i | 0 <= i < used :: t[i].loc == NULL
    ensures StopsInTable(t) && BehindFirstUsed(t) == t[used + 1]
  {
    FirstUsed(t, used);
  }

  /** It does happen: after one request of two blocks, a request that wraps to zero blocks returns
      the very same pointer. */
  lemma ZeroBlocksAlias(size: nat)
    requires Blocks(size) == 0
    ensures var calls := [Malloc(1024)];
      && Legal(calls) && Allowed(Run(calls), Malloc(size))
      && MALLOC_START in Run(calls).ledger
      && AfterMalloc(Run(calls).table, size).0 == MALLOC_START
      && Run(calls + [Malloc(size)]) == Run(calls)
  {
    var calls := [Malloc(1024)];
    assert calls[..0] == [] && Run([]) == Boot() && Legal([]);
    assert Blocks(1024) == 2;
    LowestRunIsUnique(FreeMap(EmptyTable()), 0, 2);
    var t := Claim(EmptyTable(), 0, 2);
    assert Run(calls).table == t;
    LowestRunIsUnique(UsedMap(t), 0, 1);
    assert (calls + [Malloc(size)])[..1] == calls;
  }

  // ---------- Freeing undoes allocating ----------

  /** `kfree(kmalloc(n))` puts the table back exactly. */
  lemma FreeUndoesMalloc(t: seq<Entry>, size: nat)
    requires Valid(t) && 0 < Blocks(size)
    ensures var (ptr, t') := AfterMalloc(t, size);
      AfterFree(t', ptr) == t
  {
    var n := Blocks(size);
    match LowestRun(FreeMap(t), n)
    case None =>
    case Some(start) =>
      var t' := Claim(t, start, n);
      assert FreeMap(t)[start] && t[start].loc == NULL;
      forall i: nat | i < |t| ensures Release(t', Address(start))[i] == t[i] {
        if start <= i < start + n {
          assert FreeMap(t)[i] && (t[i] == EMPTY || InExtent(t, i));
        } else if t[i].loc == Address(start) {
          var first := ExtentOf(t, i);
        }
      }
  }

  /** A client that has given everything back finds the table as it was at boot. */
  lemma NothingHeldNothingLost(calls: seq<Call>)
    requires Legal(calls) && Run(calls).ledger == map[]
    ensures Run(calls).table == EmptyTable()
  {
    RunsRefineLedger(calls);
    var t := Run(calls).table;
    forall i: nat | i < |t| ensures t[i] == EMPTY {
      assert t[i] == EMPTY || InExtent(t, i);
      if t[i].loc != NULL {
        UsedEntryIsLive(t, i);
      }
    }
  }

  lemma UsedEntryIsLive(t: seq<Entry>, i: nat)
    requires Valid(t) && i < |t| && t[i].loc != NULL
    ensures t[i].loc in Live(t)
  {
    var first := ExtentOf(t, i);
    assert BlockOf(Address(first)) == first;
  }

  // ---------- Conservation ----------

  /** Free entries at or after `from`. */
  function FreeFrom(t: seq<Entry>, from: nat): nat
    requires from <= |t|
    decreases |t| - from
  {
    if from == |t| then 0 else (if t[from].loc == NULL then 1 else 0) + FreeFrom(t, from + 1)
  }

  /** Sum of the block counts of the live regions whose first block is at or after `from`. */
  function LiveFrom(live: map<int, nat>, from: nat): nat
    requires from <= TABLE_LENGTH
    decreases TABLE_LENGTH - from
  {
    if from == TABLE_LENGTH then 0
    else (if Address(from) in live then live[Address(from)] else 0) + LiveFrom(live, from + 1)
  }

  /** The inside of a region holds no free entry and starts no other region. */
  lemma {:induction false} SkipRegion(t: seq<Entry>, first: nat, n: nat, k: nat)
    requires |t| == TABLE_LENGTH && Extent(t, first, n) && 0 < k <= n
    ensures FreeFrom(t, first + k) == FreeFrom(t, first + n)
    ensures LiveFrom(Live(t), first + k) == LiveFrom(Live(t), first + n)
    decreases n - k
  {
    if k == n {
    } else {
      assert BlockOf(Address(first + k)) == first + k;
      SkipRegion(t, first, n, k + 1);
    }
  }

  /** A free entry counts once, and a region as often as it has blocks. */
  lemma CountEntry(t: seq<Entry>, from: nat, n: nat)
    requires Valid(t) && 0 < n && from + n <= TABLE_LENGTH
    requires if t[from].loc == NULL then n == 1 else Extent(t, from, n) && t[from].size == n
    ensures FreeFrom(t, from) + LiveFrom(Live(t), from)
         == n + FreeFrom(t, from + n) + LiveFrom(Live(t), from + n)
  {
    assert BlockOf(Address(from)) == from;
    if t[from].loc != NULL {
      assert Address(from) in Live(t);
      SkipRegion(t, from, n, 1);
    }
  }

  lemma {:induction false} Conservation(t: seq<Entry>, from: nat)
    requires Valid(t) && from <= TABLE_LENGTH
    requires from == TABLE_LENGTH || t[from].loc == NULL || Extent(t, from, t[from].size)
    ensures FreeFrom(t, from) + LiveFrom(Live(t), from) == TABLE_LENGTH - from
    decreases TABLE_LENGTH - from
  {
    if from == TABLE_LENGTH {
    } else {
      var n := if t[from].loc == NULL then 1 else t[from].size;
      CountEntry(t, from, n);
      hide FreeFrom, LiveFrom, Live, Valid;
      if from + n < TABLE_LENGTH {
        BoundaryAfter(t, from, n);
      }
      Conservation(t, from + n);
    }
  }

  /** Where a free entry or a region ends, another one begins. */
  lemma BoundaryAfter(t: seq<Entry>, from: nat, n: nat)
    requires Valid(t) && from + n < |t|
    requires Extent(t, from, n) || (n == 1 && t[from].loc == NULL)
    ensures t[from + n].loc == NULL || Extent(t, from + n, t[from + n].size)
  {
    if t[from + n].loc != NULL {
      var first := ExtentOf(t, from + n);
      assert t[from + n - 1].loc == NULL || t[from + n - 1].loc == Address(from);
    }
  }

  /** `FreeFrom` counts the free entries. */
  lemma {:induction false} FreeFromCounts(t: seq<Entry>, from: nat)
    requires from <= |t|
    ensures FreeFrom(t, from) == |set i: nat | from <= i < |t| && t[i].loc == NULL|
    decreases |t| - from
  {
    var here := set i: nat | from <= i < |t| && t[i].loc == NULL;
    if from == |t| {
      assert here == {};
    } else {
      FreeFromCounts(t, from + 1);
      var rest := set i: nat | from + 1 <= i < |t| && t[i].loc == NULL;
      assert here == if t[from].loc == NULL then rest + {from} else rest;
    }
  }

  /** In every reachable state free blocks and live blocks make up the whole table. */
  lemma RunsConserveBlocks(calls: seq<Call>)
    requires Legal(calls)
    ensures FreeFrom(Run(calls).table, 0) + LiveFrom(Live(Run(calls).table), 0) == TABLE_LENGTH
  {
    RunsRefineLedger(calls);
    var t := Run(calls).table;
    if t[0].loc != NULL {
      var first := ExtentOf(t, 0);
    }
    Conservation(t, 0);
  }

  // ---------- Pointers taken before `memory_init` ----------

  /** `memory_init` clears the table; clients keep the pointers they hold. */
  function AfterInit(w: World): World { w.(table := EmptyTable()) }

  /** Two stretches of bytes meet. */
  predicate Overlap(a: int, sizeA: nat, b: int, sizeB: nat) { a < b + sizeB && b < a + sizeA }

  /** `memory_init` after any run: the first request afterwards succeeds exactly when it fits into
      the empty table. Its region overlaps one that a client still holds exactly when that one
      starts below the end of the new region, and has the same pointer exactly when it starts at
      the first block. (`main` allocates before it initialises.) */
  lemma InitForgetsHeldRegions(calls: seq<Call>, held: nat, later: nat)
    requires Legal(calls) && held in Run(calls).ledger && 0 < Blocks(later)
    ensures var w := AfterInit(Run(calls));
      var (ptr, _) := AfterMalloc(w.table, later);
      && held in w.ledger
      && (ptr != NULL <==> Blocks(later) <= TABLE_LENGTH)
      && (ptr != NULL ==>
            && (Overlap(held, BLOCK_SIZE * Blocks(w.ledger[held]), ptr, BLOCK_SIZE * Blocks(later))
                <==> BlockOf(held) < Blocks(later))
            && (ptr == held <==> BlockOf(held) == 0))
  {
    RunsRefineLedger(calls);
    var first := RegionOf(Run(calls).table, held);
    assert BlockOf(Address(first)) == first;
    FirstRequest(later);
  }

  lemma FirstRequest(later: nat)
    requires 0 < Blocks(later)
    ensures AfterMalloc(EmptyTable(), later).0 == if Blocks(later) <= TABLE_LENGTH then MALLOC_START else NULL
  {
    var free := FreeMap(EmptyTable());
    if Blocks(later) <= TABLE_LENGTH {
      LowestRunIsUnique(free, 0, Blocks(later));
    }
  }

  /** The run of `main`: what it allocates first, before the table is cleared, is handed out again
      to whoever allocates first afterwards. */
  lemma EarlyPointerIsHandedOutAgain(early: nat, later: nat)
    requires 0 < Blocks(early) <= TABLE_LENGTH && 0 < Blocks(later) <= TABLE_LENGTH
    ensures var w := Run([Malloc(early)]);
      && Legal([Malloc(early)]) && MALLOC_START in w.ledger
      && AfterMalloc(AfterInit(w).table, later).0 == MALLOC_START
  {
    var calls := [Malloc(early)];
    assert calls[..0] == [] && Run([]) == Boot() && Legal([]);
    FirstRequest(early);
    FirstRequest(later);
  }
}
