/** The blocks that `reverse_path` takes from the kernel heap: which of its needs the heap meets
    in every run, and which it does not. */
module PathBuffers {
  import opened CStrings
  import opened Paths
  import opened PathReverse
  import opened CleanPaths
  import opened FirstFit
  import H = KernelHeap
  import R = HeapRuns

  /** A block that was asked for with room for a string of `n` bytes, and is held. */
  ghost predicate Holds(calls: seq<R.Call>, block: nat, n: nat) {
    && R.Legal(calls) && block in R.Run(calls).ledger
    && n < R.Run(calls).ledger[block] <= 255 * H.BLOCK_SIZE
  }

  /** Two held blocks of at least `n + 1` bytes do not meet. */
  lemma HeldBlocksAreApart(calls: seq<R.Call>, a: nat, b: nat, n: nat)
    requires Holds(calls, a, n) && Holds(calls, b, n) && a != b
    ensures Apart(a, b, n) && 0 < a && a + n < H.MALLOC_END
  {
    R.RunsAreSafe(calls, a, b);
    R.RunsAreSafe(calls, b, a);
  }

  /** When the path is itself a heap block, the byte before the result block is its terminator
      only if the path and its terminator fill whole blocks. */
  lemma TerminatorIsSafe(calls: seq<R.Call>, path: nat, target: nat, n: nat)
    requires Holds(calls, path, n) && target in R.Run(calls).ledger
    requires (n + 1) % 512 != 0
    ensures target - 1 != path + n
  {
    R.RunsRefineLedger(calls);
    var i := H.RegionOf(R.Run(calls).table, path);
    var j := H.RegionOf(R.Run(calls).table, target);
    if target - 1 == path + n {
      WholeBlocks(n, j - i);
    }
  }

  lemma WholeBlocks(n: nat, blocks: int)
    requires n + 1 == 512 * blocks
    ensures (n + 1) % 512 == 0
  {
  }

  /** The three blocks of `reverse_path` in the heap: a normalised path ends up reversed exactly
      when the last byte of the result block was NUL and, for a path that fills whole blocks,
      the result block is not the one right behind it. */
  lemma HeapPathIsReversed(calls: seq<R.Call>, m: seq<byte>, m': seq<byte>, path: nat, backup: nat,
                           target: nat, stop: nat)
    requires IsString(m, path) && Normalised(Str(m, path)) && H.MALLOC_END <= |m| <= 0x1_0000_0000
    requires Holds(calls, path, |Str(m, path)|) && Holds(calls, backup, |Str(m, path)|)
    requires Holds(calls, target, |Str(m, path)|) && path != backup && path != target && backup != target
    requires target + |Str(m, path)| < |m| && PathReversed(m, m', path, backup, target, stop)
    ensures var n := |Str(m, path)|;
      IsString(m', path) && Str(m', path) == ReversedPath(Str(m, path))
      <==> m[target + n] == 0 && ((n + 1) % 512 == 0 ==> target != path + n + 1)
  {
    var n := |Str(m, path)|;
    HeldBlocksAreApart(calls, path, backup, n);
    HeldBlocksAreApart(calls, path, target, n);
    HeldBlocksAreApart(calls, backup, target, n);
    ReversedInPlace(m, m', path, backup, target, stop);
    ReversesIff(m, path, target);
    hide Reverses, PathReversed, ReversedPath, Normalised, Holds, Str;
    if (n + 1) % 512 != 0 {
      TerminatorIsSafe(calls, path, target, n);
    }
  }

  // ---------- A terminator that is overwritten ----------

  /** A path of `n` bytes is held after these calls, and the two blocks that `reverse_path` then
      asks for are granted, the result block right behind the path's terminator. */
  ghost predicate Hits(calls: seq<R.Call>, path: nat, n: nat) {
    && Holds(calls, path, n)
    && var w := R.Step(R.Run(calls), R.Malloc(n + 1));
    && var backup, target := R.AfterMalloc(R.Run(calls).table, n + 1).0, R.AfterMalloc(w.table, n + 1).0;
    && backup != H.NULL && target != H.NULL && target - 1 == path + n
  }

  /** For which lengths the stray slash can destroy the terminator of a path in a heap block: a
      path and its terminator that fill whole blocks, three times of which fit into the table. */
  lemma TerminatorIsHitIff(n: nat)
    ensures (exists calls, path :: Hits(calls, path, n)) <==> (n + 1) % 512 == 0 && n + 1 <= 42 * 512
  {
    hide Hits;
    if (n + 1) % 512 == 0 && n + 1 <= 42 * 512 {
      var k := (n + 1) / 512;
      var calls, path := HittingRun(k);
      assert n == 512 * k - 1;
    }
    forall calls, path | Hits(calls, path, n) ensures (n + 1) % 512 == 0 && n + 1 <= 42 * 512 {
      OnlyWholeBlocksHit(calls, path, n);
    }
  }

  lemma RunSnoc(calls: seq<R.Call>, call: R.Call)
    requires R.Legal(calls) && R.Allowed(R.Run(calls), call)
    ensures R.Legal(calls + [call]) && R.Run(calls + [call]) == R.Step(R.Run(calls), call)
  {
    assert (calls + [call])[..|calls|] == calls;
  }

  /** A granted request is one more held block, at a pointer that was not held. */
  lemma Granted(calls: seq<R.Call>, size: nat) returns (calls': seq<R.Call>)
    requires R.Legal(calls) && 0 < H.Blocks(size)
    ensures R.Legal(calls') && R.Run(calls') == R.Step(R.Run(calls), R.Malloc(size))
    ensures var ptr := R.AfterMalloc(R.Run(calls).table, size).0;
      ptr != H.NULL ==> ptr !in R.Run(calls).ledger && R.Run(calls').ledger == R.Run(calls).ledger[ptr := size]
  {
    RunSnoc(calls, R.Malloc(size));
    calls' := calls + [R.Malloc(size)];
    R.RunsRefineLedger(calls);
    var w := R.Run(calls);
    match LowestRun(H.FreeMap(w.table), H.Blocks(size)) {
      case None =>
      case Some(start) => H.ClaimAddsRegion(w.table, start, H.Blocks(size));
    }
  }

  /** After both requests the three blocks are held side by side. */
  lemma HitHolds(calls: seq<R.Call>, path: nat, n: nat) returns (calls': seq<R.Call>, backup: nat)
    requires Hits(calls, path, n)
    ensures Holds(calls', path, n) && Holds(calls', backup, n) && Holds(calls', path + n + 1, n)
    ensures backup != path && backup != path + n + 1
  {
    hide R.Run, R.Legal, R.AfterMalloc, R.Step, H.Blocks;
    R.CoversUpTo255Blocks(n + 1);
    var calls1 := Granted(calls, n + 1);
    calls' := Granted(calls1, n + 1);
    backup := R.AfterMalloc(R.Run(calls).table, n + 1).0;
  }

  lemma OnlyWholeBlocksHit(calls: seq<R.Call>, path: nat, n: nat)
    requires Hits(calls, path, n)
    ensures (n + 1) % 512 == 0 && n + 1 <= 42 * 512
  {
    hide Hits, Holds;
    var calls', backup := HitHolds(calls, path, n);
    NextBlockIsAligned(calls', path, n);
    ThreeBlocksFit(calls', path, backup, path + n + 1, n);
    WholeThird(n);
  }

  /** A block held right behind the terminator of a path means that the path fills its blocks. */
  lemma NextBlockIsAligned(calls: seq<R.Call>, path: nat, n: nat)
    requires Holds(calls, path, n) && Holds(calls, path + n + 1, n)
    ensures (n + 1) % 512 == 0
  {
    if (n + 1) % 512 != 0 {
      TerminatorIsSafe(calls, path, path + n + 1, n);
    }
  }

  lemma WholeThird(n: nat)
    requires (n + 1) % 512 == 0 && 3 * (n + 1) <= 128 * 512
    ensures n + 1 <= 42 * 512
  {
  }

  /** Three held blocks for `n + 1` bytes each need three times that room. */
  lemma ThreeBlocksFit(calls: seq<R.Call>, a: nat, b: nat, c: nat, n: nat)
    requires Holds(calls, a, n) && Holds(calls, b, n) && Holds(calls, c, n)
    requires a != b && b != c && a != c
    ensures 3 * (n + 1) <= 128 * 512
  {
    hide R.Run, R.Legal;
    HeldBlocksAreApart(calls, a, b, n);
    HeldBlocksAreApart(calls, b, c, n);
    HeldBlocksAreApart(calls, c, a, n);
    R.RunsAreSafe(calls, a, a);
    R.RunsAreSafe(calls, b, b);
    R.RunsAreSafe(calls, c, c);
  }

  /** With everything in use below it, a free stretch is what `kmalloc` takes. */
  lemma TakesFirstFree(t: seq<H.Entry>, start: nat, k: nat)
    requires 0 < k <= 255 && start + k <= |t|
    requires forall j | 0 <= j < start :: t[j].loc != H.NULL
    requires forall j | start <= j < start + k :: t[j].loc == H.NULL
    ensures R.AfterMalloc(t, 512 * k) == (H.Address(start), H.Claim(t, start, k))
  {
    assert H.Blocks(512 * k) == k;
    var free := H.FreeMap(t);
    forall lower: nat | lower < start ensures !FreeRun(free, lower, k) {
      assert !free[lower];
    }
    LowestRunIsUnique(free, start, k);
  }

  /** The tables of the run below. */
  lemma HittingTables(k: nat)
    requires 0 < k <= 42
    ensures var size, t0 := 512 * k, H.EmptyTable();
      var t1 := H.Claim(t0, 0, k);
      var t2 := H.Claim(t1, k, k);
      var t3 := H.Release(t2, H.MALLOC_START);
      var t4 := H.Claim(t3, 0, k);
      && R.AfterMalloc(t0, size) == (H.Address(0), t1)
      && R.AfterMalloc(t1, size) == (H.Address(k), t2)
      && R.AfterMalloc(t3, size) == (H.Address(0), t4)
      && R.AfterMalloc(t4, size).0 == H.Address(2 * k)
  {
    hide R.AfterMalloc, H.Claim, H.Release;
    var t0 := H.EmptyTable();
    var t1 := H.Claim(t0, 0, k);
    var t2 := H.Claim(t1, k, k);
    var t3 := H.Release(t2, H.MALLOC_START);
    TakesFirstFree(t0, 0, k);
    TakesFirstFree(t1, k, k);
    TakesFirstFree(t3, 0, k);
    TakesFirstFree(H.Claim(t3, 0, k), 2 * k, k);
  }

  /** Something lies below the path and is freed; the copy goes there, and the result goes right
      behind the path. */
  lemma HittingRun(k: nat) returns (calls: seq<R.Call>, path: nat)
    requires 0 < k <= 42
    ensures Hits(calls, path, 512 * k - 1)
  {
    var size := 512 * k;
    assert H.Blocks(size) == k && R.Legal([]) && R.Run([]) == R.Boot();
    HittingTables(k);
    hide H.Claim, H.Release, R.AfterMalloc, R.Run, R.Legal, H.EmptyTable;
    RunSnoc([], R.Malloc(size));
    RunSnoc([] + [R.Malloc(size)], R.Malloc(size));
    RunSnoc([] + [R.Malloc(size)] + [R.Malloc(size)], R.Free(H.MALLOC_START));
    calls, path := [] + [R.Malloc(size)] + [R.Malloc(size)] + [R.Free(H.MALLOC_START)], H.Address(k);
  }
}
