/** How the FAT32 driver (core/drv/FS/fat.c) really reaches the table: it loads the sector an entry
    is in, but uses the byte offset of the entry as the index of a 32-bit word. This module says
    for which clusters that behaves like the table of `FatChains`. */
module FatSectors {
  import opened FatChains

  const SECTOR_WORDS := 128 // 32-bit words of a sector, and entries of the table in it

  /** The sector that is loaded, and the word of the buffer that is then accessed. */
  function Sector(c: nat): nat { c * 4 / 512 }
  function Word(c: nat): nat { c * 4 % 512 }

  /** The word lies in the 512-byte buffer, and not behind it. */
  predicate InBuffer(c: nat) { Word(c) < SECTOR_WORDS }

  /** Where that word is on the disk. */
  function DriverWord(c: nat): nat { 128 * Sector(c) + Word(c) }

  /** A table of whole sectors, as words. */
  predicate WholeSectors(disk: seq<nat>) { |disk| % 128 == 0 }

  /** The accesses stay inside the buffer exactly for the first 32 clusters of each sector; two of
      those never meet; but the word is the one that the format assigns to the cluster only for
      the first cluster of each sector. */
  lemma DriverAddressing(disk: seq<nat>, c: nat, c': nat)
    requires WholeSectors(disk) && c < |disk|
    ensures InBuffer(c) <==> c % 128 < 32
    ensures InBuffer(c) ==> 128 * Sector(c) <= DriverWord(c) < 128 * Sector(c) + 128 <= |disk|
    ensures InBuffer(c) && InBuffer(c') && DriverWord(c) == DriverWord(c') ==> c == c'
    ensures InBuffer(c) ==> (DriverWord(c) == c <==> c % 128 == 0)
  {
    Divided(c);
    Divided(c');
    hide Sector, Word;
  }

  /** The word in terms of the format's own place for the entry, the `c`th word of the table: as many
      words behind the start of its sector, times four. */
  lemma WordIsFourTimesTooFar(c: nat)
    ensures Sector(c) == c / 128 && DriverWord(c) - 128 * (c / 128) == 4 * (c - 128 * (c / 128))
  {
    Divided(c);
  }

  lemma Divided(c: nat)
    ensures Sector(c) == c / 128 && Word(c) == 4 * (c % 128)
  {
  }

  /** The table as the driver sees it. What it reads for the other clusters is memory behind its
      buffer, whatever that holds: `beyond`, one value for each cluster. */
  function Seen(disk: seq<nat>, beyond: seq<nat>): (fat: seq<nat>)
    requires WholeSectors(disk) && |beyond| == |disk|
    ensures |fat| == |disk|
    ensures forall c: nat | c < |disk| && !InBuffer(c) :: fat[c] == beyond[c]
    ensures forall c: nat | c < |disk| && InBuffer(c) :: DriverWord(c) < |disk| && fat[c] == disk[DriverWord(c)]
  {
    seq(|disk|, c requires 0 <= c < |disk| =>
      DriverAddressing(disk, c, c);
      if InBuffer(c) then disk[DriverWord(c)] else beyond[c])
  }

  /** Storing an entry: what falls behind the buffer never reaches the disk. */
  function Stored(disk: seq<nat>, c: nat, v: nat): (r: seq<nat>)
    requires WholeSectors(disk) && c < |disk|
    ensures |r| == |disk|
  {
    DriverAddressing(disk, c, c);
    if InBuffer(c) then disk[DriverWord(c) := v] else disk
  }

  /** The disk after `update_fat`. */
  function DiskLinked(disk: seq<nat>, list: seq<nat>): (r: seq<nat>)
    requires WholeSectors(disk) && InTable(disk, list)
    ensures |r| == |disk|
    decreases |list|
  {
    if list == [] then disk
    else DiskLinked(Stored(disk, list[0], if |list| == 1 then END_MARK else Masked(list[1])), list[1..])
  }

  predicate AllInBuffer(list: seq<nat>) { forall i | 0 <= i < |list| :: InBuffer(list[i]) }

  class SectorDriver {
    const disk: array<nat>

    constructor (disk: array<nat>)
      ensures this.disk == disk
    {
      this.disk := disk;
    }

    /** `read` of one sector. */
    method ReadSector(sector: nat) returns (buffer: array<nat>)
      requires WholeSectors(disk[..]) && 128 * sector + 128 <= disk.Length
      ensures fresh(buffer) && buffer[..] == disk[128 * sector..128 * sector + 128]
    {
      buffer := new nat[128](_ => 0);
      var i := 0;
      while i < 128
        invariant 0 <= i <= 128
        invariant buffer[..i] == disk[128 * sector..128 * sector + i]
      {
        buffer[i] := disk[128 * sector + i];
        i := i + 1;
      }
    }

    /** `write` of one sector. */
    method WriteSector(sector: nat, buffer: array<nat>)
      requires buffer != disk && buffer.Length == 128 && 128 * sector + 128 <= disk.Length
      modifies disk
      ensures disk[..] == old(disk[..128 * sector] + buffer[..] + disk[128 * sector + 128..])
    {
      var i := 0;
      while i < 128
        invariant 0 <= i <= 128
        invariant buffer[..] == old(buffer[..])
        invariant forall k | 0 <= k < disk.Length ::
          disk[k] == if 128 * sector <= k < 128 * sector + i then buffer[k - 128 * sector] else old(disk[k])
      {
        disk[128 * sector + i] := buffer[i];
        i := i + 1;
      }
    }

    /** `FAT32_read_table`. */
    method ReadEntry(cluster: nat, beyond: seq<nat>) returns (entry: nat)
      requires WholeSectors(disk[..]) && cluster < disk.Length == |beyond|
      ensures entry == ReadTable(Seen(disk[..], beyond), cluster)
    {
      DriverAddressing(disk[..], cluster, cluster);
      var table := ReadSector(Sector(cluster));
      var word := Word(cluster);
      entry := Masked(if word < SECTOR_WORDS then table[word] else beyond[cluster]);
    }

    /** One round of `update_fat`. A store behind the buffer changes memory that is not part of
        the sector that is written back. */
    method WriteEntry(cluster: nat, entry: nat)
      requires WholeSectors(disk[..]) && cluster < disk.Length
      modifies disk
      ensures disk[..] == Stored(old(disk[..]), cluster, entry)
    {
      DriverAddressing(disk[..], cluster, cluster);
      var table := ReadSector(Sector(cluster));
      var word := Word(cluster);
      if word < SECTOR_WORDS {
        table[word] := entry;
      }
      WriteSector(Sector(cluster), table);
    }

    /** `update_fat`. */
    method UpdateFat(list: seq<nat>)
      requires WholeSectors(disk[..]) && InTable(disk[..], list)
      modifies disk
      ensures disk[..] == DiskLinked(old(disk[..]), list)
    {
      ghost var before := disk[..];
      var n := |list|;
      var i := 0;
      while i < n
        invariant 0 <= i <= n
        invariant WholeSectors(disk[..]) && InTable(disk[..], list[i..])
        invariant DiskLinked(before, list) == DiskLinked(disk[..], list[i..])
      {
        assert list[i..][0] == list[i] && list[i..][1..] == list[i + 1..];
        WriteEntry(list[i], if i == n - 1 then END_MARK else Masked(list[i + 1]));
        i := i + 1;
      }
    }
  }

  /** What a store changes on the disk: the word four times as far behind the start of the sector as
      the format has it, for the first 32 clusters of a sector, and nothing for the others. */
  lemma StoredWord(disk: seq<nat>, c: nat, v: nat, word: nat)
    requires WholeSectors(disk) && c < |disk| && word < |disk|
    ensures Stored(disk, c, v)[word] ==
      if c % 128 < 32 && word == 128 * (c / 128) + 4 * (c % 128) then v else disk[word]
  {
    DriverAddressing(disk, c, c);
    Divided(c);
  }

  /** Storing a cluster inside the buffer is storing its entry in the table the driver sees, and
      storing one outside changes nothing there. */
  lemma StoredIsSeen(disk: seq<nat>, beyond: seq<nat>, c: nat, v: nat)
    requires WholeSectors(disk) && |beyond| == |disk| && c < |disk|
    ensures Seen(Stored(disk, c, v), beyond) == if InBuffer(c) then Seen(disk, beyond)[c := v] else Seen(disk, beyond)
  {
    var disk' := Stored(disk, c, v);
    DriverAddressing(disk, c, c);
    if InBuffer(c) {
      forall x: nat | x < |disk| ensures Seen(disk', beyond)[x] == Seen(disk, beyond)[c := v][x] {
        DriverAddressing(disk, c, x);
        DriverAddressing(disk, x, x);
      }
    }
  }

  /** Linking on the disk refines linking in the table, for the clusters that are in the buffer. */
  lemma {:induction false} DiskLinkedRefines(disk: seq<nat>, beyond: seq<nat>, list: seq<nat>)
    requires WholeSectors(disk) && |beyond| == |disk| && InTable(disk, list) && AllInBuffer(list)
    ensures Seen(DiskLinked(disk, list), beyond) == Linked(Seen(disk, beyond), list)
    decreases |list|
  {
    if list == [] {
    } else {
      var v := if |list| == 1 then END_MARK else Masked(list[1]);
      StoredIsSeen(disk, beyond, list[0], v);
      DiskLinkedRefines(Stored(disk, list[0], v), beyond, list[1..]);
    }
  }

  /** Where the walk goes wrong: at the last cluster it must stop, at any other it must not. */
  lemma BrokenAt(fat: seq<nat>, c: nat, list: seq<nat>, k: nat)
    requires k < |list| && list[k] < |fat|
    requires Stops(ReadTable(fat, list[k])) <==> k < |list| - 1
    ensures !IsChain(fat, c, list)
  {
    if IsChain(fat, c, list) {
      ChainSuffix(fat, c, list, k);
    }
  }

  /** A cluster of the list that is not in the buffer is read back as whatever lies there, so some
      memory breaks the walk at it. */
  lemma SomeMemoryBreaks(disk: seq<nat>, list: seq<nat>, k: nat) returns (beyond: seq<nat>)
    requires WholeSectors(disk) && InTable(disk, list) && k < |list| && !InBuffer(list[k])
    ensures |beyond| == |disk| && !IsChain(Seen(disk, beyond), list[0], list)
  {
    beyond := seq(|disk|, _ => if k == |list| - 1 then 1 else 0);
    assert Seen(disk, beyond)[list[k]] == beyond[list[k]];
    BrokenAt(Seen(disk, beyond), list[0], list, k);
  }

  /** The walk over the disk from the first cluster of the list is the list, whatever lies behind
      the buffer. */
  ghost predicate ReadsBack(disk: seq<nat>, list: seq<nat>)
    requires WholeSectors(disk) && list != []
  {
    forall beyond: seq<nat> | |beyond| == |disk| :: IsChain(Seen(disk, beyond), list[0], list)
  }

  /** `update_fat` then `FAT32_readFat` on the disk gives a list of clusters back exactly when it
      has no duplicates and every cluster of it is one of the first 32 of its sector. */
  lemma DiskRoundTrip(disk: seq<nat>, list: seq<nat>)
    requires WholeSectors(disk) && list != [] && Linkable(disk, list)
    ensures ReadsBack(DiskLinked(disk, list), list)
      <==> Distinct(list) && forall i | 0 <= i < |list| :: list[i] % 128 < 32
  {
    forall i | 0 <= i < |list| ensures InBuffer(list[i]) <==> list[i] % 128 < 32 {
      Divided(list[i]);
    }
    hide DiskLinked, InBuffer, IsChain, Linkable, Distinct;
    assert InTable(disk, list) by {
      TableHolds(disk, list);
    }
    if AllInBuffer(list) {
      RoundTripInBuffer(disk, list);
    } else {
      var k :| 0 <= k < |list| && !InBuffer(list[k]);
      var beyond := SomeMemoryBreaks(DiskLinked(disk, list), list, k);
    }
  }

  lemma TableHolds(disk: seq<nat>, list: seq<nat>)
    requires Linkable(disk, list)
    ensures InTable(disk, list)
  {
  }

  lemma RoundTripInBuffer(disk: seq<nat>, list: seq<nat>)
    requires WholeSectors(disk) && list != [] && Linkable(disk, list) && AllInBuffer(list)
    ensures ReadsBack(DiskLinked(disk, list), list) <==> Distinct(list)
  {
    hide IsChain, Distinct, DiskLinked, Linked, InBuffer;
    var disk' := DiskLinked(disk, list);
    forall beyond: seq<nat> | |beyond| == |disk|
      ensures IsChain(Seen(disk', beyond), list[0], list) <==> Distinct(list)
    {
      DiskLinkedRefines(disk, beyond, list);
      assert Linkable(Seen(disk, beyond), list);
      UpdateThenReadFat(Seen(disk, beyond), list);
    }
    var zeros: seq<nat> := seq(|disk|, _ => 0);
    assert IsChain(Seen(disk', zeros), list[0], list) <==> Distinct(list);
  }
}
