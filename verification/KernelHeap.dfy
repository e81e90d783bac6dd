/** The kernel block allocator of core/memory/memory.c: `kmalloc`, `kfree` and
    `memory_update_table` over a fixed table with one entry for each 512-byte block. */
module KernelHeap {
  import opened FirstFit

  const TABLE_LENGTH := 128
  const BLOCK_SIZE := 512
  const MALLOC_START := 0x200000
  const MALLOC_END := MALLOC_START + TABLE_LENGTH * BLOCK_SIZE
  const NULL := 0

  /** One table entry; every block of a region carries the region's address and length. */
  datatype Entry = Entry(loc: nat, size: nat)

  const EMPTY := Entry(0, 0)

  function EmptyTable(): seq<Entry> { seq(TABLE_LENGTH, _ => EMPTY) }

  /** The number of blocks `kmalloc` works with: a `uint8_t`, so it wraps at 256. */
  function Blocks(size: nat): nat { HowMany(size, BLOCK_SIZE) % 256 }

  /** The address of block `i`. */
  function Address(i: int): int { 0x200000 + 512 * i }

  function FreeMap(t: seq<Entry>): (free: seq<bool>) {
    seq(|t|, i requires 0 <= i < |t| => t[i].loc == NULL)
  }

  function UsedMap(t: seq<Entry>): seq<bool> {
    seq(|t|, i requires 0 <= i < |t| => t[i].loc != NULL)
  }

  /** The search for zero blocks stops at the first used entry; the last one is too late. */
  predicate StopsInTable(t: seq<Entry>) {
    var used := LowestRun(UsedMap(t), 1);
    used.Some? && used.value + 1 < |t|
  }

  /** The entry behind the first used one. */
  function BehindFirstUsed(t: seq<Entry>): Entry
    requires StopsInTable(t)
  {
    t[LowestRun(UsedMap(t), 1).value + 1]
  }

  /** Blocks `[first, first + n)` are one region: every entry carries its address and length. */
  predicate Extent(t: seq<Entry>, first: nat, n: nat) {
    0 < n && first + n <= |t| && forall j | first <= j < first + n :: t[j] == Entry(Address(first), n)
  }

  ghost predicate InExtent(t: seq<Entry>, i: nat)
    requires i < |t|
  {
    exists first: nat :: first <= i < first + t[i].size && Extent(t, first, t[i].size)
  }

  /** The whole-table invariant: an entry is clear or belongs to a region. */
  ghost predicate Valid(t: seq<Entry>) {
    |t| == TABLE_LENGTH && forall i: nat {:trigger InExtent(t, i)} | i < |t| :: t[i] == EMPTY || InExtent(t, i)
  }

  /** The table after blocks `[start, start + n)` became one region. */
  function Claim(t: seq<Entry>, start: nat, n: nat): (t': seq<Entry>)
    requires start + n <= |t|
    ensures |t'| == |t|
    ensures forall i | 0 <= i < |t| ::
      t'[i] == if start <= i < start + n then Entry(Address(start), n) else t[i]
  {
    t[..start] + seq(n, _ => Entry(Address(start), n)) + t[start + n..]
  }

  /** The table after the region at `ptr` was given back. */
  function Release(t: seq<Entry>, ptr: nat): (t': seq<Entry>)
    ensures |t'| == |t|
    ensures forall i | 0 <= i < |t| :: t'[i] == if t[i].loc == ptr then EMPTY else t[i]
  {
    if t == [] then [] else [if t[0].loc == ptr then EMPTY else t[0]] + Release(t[1..], ptr)
  }

  /** What the table stands for: a map from live pointers to their block counts. */
  function Live(t: seq<Entry>): map<int, nat> {
    map ptr | MALLOC_START <= ptr < MALLOC_END && IsLive(t, ptr) :: t[BlockOf(ptr)].size
  }

  /** The block an address falls in. */
  function BlockOf(ptr: int): int { (ptr - 0x200000) / 512 }

  /** `ptr` is the address of a block whose entry says that its region starts there. */
  predicate IsLive(t: seq<Entry>, ptr: int) {
    0 <= BlockOf(ptr) < |t| && ptr == Address(BlockOf(ptr)) == t[BlockOf(ptr)].loc
  }

  class Heap {
    const table: array<Entry>

    /** The zeroed table of a fresh kernel. */
    constructor ()
      ensures fresh(table)
      ensures Valid(table[..]) && Live(table[..]) == map[]
      ensures table[..] == EmptyTable()
    {
      table := new Entry[TABLE_LENGTH](_ => EMPTY);
    }

    /** `memory_init` clears the table with `memset`, whatever it held. */
    method MemoryInit()
      requires table.Length == TABLE_LENGTH
      modifies table
      ensures table[..] == EmptyTable()
    {
      var size := TABLE_LENGTH;
      while size != 0
        invariant 0 <= size <= TABLE_LENGTH
        invariant forall j | size <= j < TABLE_LENGTH :: table[j] == EMPTY
      {
        size := size - 1;
        table[size] := EMPTY;
      }
    }

    /** The search loop of `kmalloc`: stops at the entry that completes a run of `blocks` free
        ones, keeping only the length of the run that ends here. */
    method Scan(blocks: nat) returns (loc: nat, available: nat)
      requires table.Length == TABLE_LENGTH && blocks < 256
      requires blocks == 0 ==> StopsInTable(table[..])
      ensures LowestRun(FreeMap(table[..]), blocks).None? ==> loc == TABLE_LENGTH && available < blocks
      ensures 0 < blocks && loc < TABLE_LENGTH ==>
        && blocks <= loc + 1
        && LowestRun(FreeMap(table[..]), blocks) == Some(loc + 1 - blocks)
      ensures 0 < blocks && loc >= TABLE_LENGTH ==> LowestRun(FreeMap(table[..]), blocks).None?
      ensures blocks == 0 ==> loc < TABLE_LENGTH - 1 && LowestRun(UsedMap(table[..]), 1) == Some(loc)
    {
      ghost var free := FreeMap(table[..]);
      loc, available := 0, 0;
      while loc < TABLE_LENGTH
        invariant 0 <= available <= loc <= TABLE_LENGTH
        invariant forall j | loc - available <= j < loc :: free[j]
        invariant available < loc ==> !free[loc - available - 1]
        invariant blocks > 0 ==> available < blocks
        invariant blocks > 0 ==> forall s: nat | s + blocks <= loc :: !FreeRun(free, s, blocks)
        invariant blocks == 0 ==> available == loc
      {
        if table[loc].loc == NULL {
          available := (available + 1) % 256;
        } else {
          available := 0;
        }
        if available == blocks {
          break;
        }
        loc := loc + 1;
        assert available < loc ==> !free[loc - available - 1];
      }
      if blocks == 0 {
        ghost var used := LowestRun(UsedMap(table[..]), 1).value;
        assert UsedMap(table[..])[used] && !free[used];
        FirstUsed(table[..], loc);
      } else if loc < TABLE_LENGTH {
        assert IsLowestRun(free, loc + 1 - blocks, blocks);
        LowestRunIsUnique(free, loc + 1 - blocks, blocks);
      }
    }

    /** First fit with one running counter. The result is the lowest run of free blocks, and
        its address, although derived from the preceding entry, is the address of its first
        block. A block count of zero (a size of zero, or one that wraps to it) claims nothing
        and returns whatever the entry after the first used one holds. */
    method Kmalloc(size: nat) returns (ptr: nat)
      requires Valid(table[..])
      requires 0 < Blocks(size) || StopsInTable(table[..])
      modifies table
      ensures Valid(table[..])
      ensures Blocks(size) > 0 ==>
        match LowestRun(FreeMap(old(table[..])), Blocks(size))
        case None => ptr == NULL && table[..] == old(table[..])
        case Some(start) => ptr == Address(start) && table[..] == Claim(old(table[..]), start, Blocks(size))
      ensures Blocks(size) == 0 ==>
        table[..] == old(table[..]) && ptr == BehindFirstUsed(old(table[..])).loc
    {
      var blocks := HowMany(size, BLOCK_SIZE) % 256;
      ghost var t := table[..];
      hide Valid, LowestRun, Claim, UsedMap;
      var loc, available := Scan(blocks);
      if loc >= TABLE_LENGTH && available < blocks {
        return NULL;
      }

      var index := (loc - blocks + 1) % 256;
      if index - 1 < 0 {
        UpdateTable(0, MALLOC_START, blocks);
      } else {
        if blocks > 0 {
          NeighbourGivesAddress(t, index, blocks);
        }
        var location := table[index - 1].loc + table[index - 1].size * BLOCK_SIZE;
        UpdateTable(index, location, blocks);
      }
      if blocks > 0 {
        ClaimKeepsValid(t, index, blocks);
      }
      return table[index].loc;
    }

    /** `memory_update_table`. */
    method UpdateTable(index: nat, loc: nat, blocks: nat)
      requires table.Length == TABLE_LENGTH
      requires index + blocks <= TABLE_LENGTH
      modifies table
      ensures forall i | 0 <= i < TABLE_LENGTH ::
        table[i] == if index <= i < index + blocks then Entry(loc, blocks) else old(table[i])
      ensures loc == Address(index) ==> table[..] == Claim(old(table[..]), index, blocks)
      ensures blocks == 0 ==> table[..] == old(table[..])
    {
      var end := (index + blocks) % 256;
      var i := index;
      while i < end
        invariant index <= i <= end
        invariant forall j | 0 <= j < TABLE_LENGTH ::
          table[j] == if index <= j < i then Entry(loc, blocks) else old(table[j])
      {
        table[i] := Entry(loc, blocks);
        i := i + 1;
      }
    }

    /** `kfree` finds the first entry with the pointer and clears as many entries as that
        entry's size says; these are exactly the entries of the region. */
    method Kfree(ptr: nat)
      requires Valid(table[..])
      requires ptr == NULL || ptr in Live(table[..])
      modifies table
      ensures Valid(table[..])
      ensures table[..] == if ptr == NULL then old(table[..]) else Release(old(table[..]), ptr)
    {
      if ptr == NULL {
        return;
      }
      ghost var t := table[..];
      ghost var first := RegionOf(t, ptr);
      ghost var n := t[first].size;
      var i := 0;
      while i < TABLE_LENGTH && table[i].loc != ptr
        invariant 0 <= i <= first
        invariant table[..] == t
      {
        i := i + 1;
      }
      assert i == first;
      var len := (i + table[i].size) % 256;
      while i < len
        invariant first <= i <= len == first + n
        invariant forall j | 0 <= j < TABLE_LENGTH ::
          table[j] == if first <= j < i then EMPTY else t[j]
      {
        table[i] := EMPTY;
        i := i + 1;
      }
      ReleaseKeepsValid(t, ptr);
      assert table[..] == Release(t, ptr);
    }
  }

  // ---------- The table invariant ----------

  lemma ExtentOf(t: seq<Entry>, i: nat) returns (first: nat)
    requires Valid(t) && i < |t| && t[i].loc != NULL
    ensures first <= i < first + t[i].size && Extent(t, first, t[i].size)
  {
    assert InExtent(t, i);
    first :| first <= i < first + t[i].size && Extent(t, first, t[i].size);
  }

  /** First fit only ever starts a region right where the region before it ends. */
  lemma NeighbourGivesAddress(t: seq<Entry>, index: nat, n: nat)
    requires Valid(t) && 0 < index && 0 < n
    requires IsLowestRun(FreeMap(t), index, n)
    ensures t[index - 1].loc + t[index - 1].size * BLOCK_SIZE == Address(index)
  {
    SlotBeforeLowestRunIsTaken(FreeMap(t), index, n);
    var first := ExtentOf(t, index - 1);
    assert FreeMap(t)[index];
  }

  lemma FirstUsed(t: seq<Entry>, used: nat)
    requires used < |t| && t[used].loc != NULL
    requires forall j | 0 <= j < used :: FreeMap(t)[j]
    ensures LowestRun(UsedMap(t), 1) == Some(used)
  {
    var u := UsedMap(t);
    forall lower: nat | lower < used ensures !FreeRun(u, lower, 1) {
      assert FreeMap(t)[lower] && !u[lower];
    }
    assert IsLowestRun(u, used, 1);
    LowestRunIsUnique(u, used, 1);
  }

  /** The entries that carry a live pointer are those of one extent, at the pointer's block. */
  lemma RegionOf(t: seq<Entry>, ptr: nat) returns (first: nat)
    requires Valid(t) && ptr in Live(t)
    ensures ptr == Address(first) && Extent(t, first, Live(t)[ptr])
    ensures forall i: nat | i < |t| :: t[i].loc == ptr <==> first <= i < first + Live(t)[ptr]
  {
    first := BlockOf(ptr);
    assert InExtent(t, first);
    forall i: nat | i < |t| && t[i].loc == ptr ensures first <= i < first + Live(t)[ptr] {
      assert InExtent(t, i);
    }
  }

  lemma ClaimKeepsValid(t: seq<Entry>, start: nat, n: nat)
    requires Valid(t) && 0 < n && FreeRun(FreeMap(t), start, n)
    ensures Valid(Claim(t, start, n))
  {
    var t' := Claim(t, start, n);
    forall j | start <= j < start + n ensures t[j].loc == NULL {
      assert FreeMap(t)[j];
    }
    assert Extent(t', start, n);
    forall i: nat | i < |t'| ensures t'[i] == EMPTY || InExtent(t', i) {
      if t[i].loc != NULL && !(start <= i < start + n) {
        var first := ExtentOf(t, i);
        assert Extent(t', first, t[i].size);
      } else {
        assert t[i] == EMPTY || InExtent(t, i);
      }
    }
  }

  lemma ClaimAddsRegion(t: seq<Entry>, start: nat, n: nat)
    requires |t| == TABLE_LENGTH && 0 < n && FreeRun(FreeMap(t), start, n)
    ensures Address(start) !in Live(t)
    ensures Live(Claim(t, start, n)) == Live(t)[Address(start) := n]
  {
    var t' := Claim(t, start, n);
    forall j | start <= j < start + n ensures t[j].loc == NULL {
      assert FreeMap(t)[j];
    }
    assert BlockOf(Address(start)) == start;
  }

  lemma ReleaseKeepsValid(t: seq<Entry>, ptr: nat)
    requires Valid(t) && ptr in Live(t)
    ensures Valid(Release(t, ptr))
  {
    var t' := Release(t, ptr);
    forall i: nat | i < |t'| ensures t'[i] == EMPTY || InExtent(t', i) {
      if t[i].loc != NULL && t[i].loc != ptr {
        var first := ExtentOf(t, i);
        assert Extent(t', first, t[i].size);
      } else {
        assert t[i] == EMPTY || InExtent(t, i);
      }
    }
  }

  lemma ReleaseRemovesRegion(t: seq<Entry>, ptr: nat)
    ensures Live(Release(t, ptr)) == Live(t) - {ptr}
  {
  }
}
