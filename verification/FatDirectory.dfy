/** Directory slots of the FAT32 driver (core/drv/FS/fat.c): looking a name up, finding the
    end of the directory, and writing a new entry there. */
module FatDirectory {
  import opened CStrings
  import opened FirstFit

  const MAX := 0xFFFF_FFFF
  const NAME_LENGTH := 11
  const DELETED: byte := 0xE5
  const EXIT_SUCCESS := 0
  const EXIT_FILE_EXISTS := 0x13

  datatype DirEntry = DirEntry(name: seq<byte>, attrib: byte, clHi: nat, clLo: nat, fSize: nat)

  predicate WellFormed(dir: seq<DirEntry>) {
    forall i | 0 <= i < |dir| :: |dir[i].name| == NAME_LENGTH
  }

  /** Deleted entries, long names, volume labels and hidden files are not looked at. */
  predicate Skipped(e: DirEntry)
    requires |e.name| == NAME_LENGTH
  {
    e.name[0] == DELETED || e.attrib == 0x3F || e.attrib == 0x08 || e.attrib == 0x02
  }

  /** The slot a name is found in: the first one before the end whose C string is the name. */
  function LookupFrom(dir: seq<DirEntry>, i: nat, name: seq<byte>): Option<nat>
    requires WellFormed(dir)
    decreases |dir| - i
  {
    if i >= |dir| || dir[i].name[0] == 0 then None
    else if !Skipped(dir[i]) && UpToNul(dir[i].name) == name then Some(i)
    else LookupFrom(dir, i + 1, name)
  }

  function Lookup(dir: seq<DirEntry>, name: seq<byte>): Option<nat>
    requires WellFormed(dir)
  {
    if |name| > NAME_LENGTH || |name| == 0 then None else LookupFrom(dir, 0, name)
  }

  /** The first slot, at or after `i`, whose name starts with NUL. */
  function EndFrom(dir: seq<DirEntry>, i: nat): (e: nat)
    requires WellFormed(dir) && i <= |dir|
    ensures i <= e <= |dir|
    ensures forall k | i <= k < e :: dir[k].name[0] != 0
    ensures e < |dir| ==> dir[e].name[0] == 0
    decreases |dir| - i
  {
    if i == |dir| || dir[i].name[0] == 0 then i else EndFrom(dir, i + 1)
  }

  /** The directory ends inside its buffer. */
  predicate Terminated(dir: seq<DirEntry>) { WellFormed(dir) && EndFrom(dir, 0) < |dir| }

  function Entry(f: seq<byte>, attrib: byte, cluster: nat, size: nat): DirEntry {
    DirEntry(f, attrib, cluster / 0x1_0000 % 0x1_0000, cluster % 0x1_0000, size)
  }

  class Directory {
    const dir: array<DirEntry>

    constructor (dir: array<DirEntry>)
      ensures this.dir == dir
    {
      this.dir := dir;
    }

    /** `FAT_file_exists`. */
    method FileExists(filename: seq<byte>) returns (r: nat)
      requires Terminated(dir[..]) && dir.Length <= MAX
      ensures match Lookup(dir[..], filename)
        case None => r == MAX
        case Some(i) => r == i
    {
      if |filename| > NAME_LENGTH || |filename| == 0 {
        return MAX;
      }
      var i := 0;
      while dir[i].name[0] != 0 && i != MAX
        invariant i <= EndFrom(dir[..], 0)
        invariant Lookup(dir[..], filename) == LookupFrom(dir[..], i, filename)
        decreases dir.Length - i
      {
        var e := dir[i];
        if e.name[0] == DELETED || e.attrib == 0x3F || e.attrib == 0x08 || e.attrib == 0x02 {
          i := i + 1;
          continue;
        }
        var file := e.name[..8] + e.name[8..];
        assert file == e.name;
        if UpToNul(file) == filename {
          return i;
        }
        i := i + 1;
      }
      return MAX;
    }

    /** `dir_find_last`. */
    method FindLast() returns (n: nat)
      requires Terminated(dir[..])
      ensures n == EndFrom(dir[..], 0)
    {
      n := 0;
      while dir[n].name[0] != 0
        invariant n <= EndFrom(dir[..], 0) && EndFrom(dir[..], 0) == EndFrom(dir[..], n)
        decreases dir.Length - n
      {
        n := n + 1;
      }
    }

    /** `update_dir` on the directory buffer, for a directory that needs no new cluster. */
    method Update(f: seq<byte>, attrib: byte, cluster: nat, size: nat) returns (error: nat)
      requires Terminated(dir[..]) && dir.Length <= MAX && |f| == NAME_LENGTH && cluster <= MAX
      modifies dir
      ensures match Lookup(old(dir[..]), UpToNul(f))
        case Some(_) => error == EXIT_FILE_EXISTS && dir[..] == old(dir[..])
        case None =>
          error == EXIT_SUCCESS &&
          dir[..] == old(dir[..])[EndFrom(old(dir[..]), 0) := Entry(f, attrib, cluster, size)]
      ensures error == EXIT_SUCCESS ==>
        var end := EndFrom(old(dir[..]), 0);
        && dir[end].name == f && dir[end].attrib == attrib && dir[end].fSize == size
        && 0x1_0000 * dir[end].clHi + dir[end].clLo == cluster && dir[end].clLo < 0x1_0000
        && forall i | 0 <= i < dir.Length && i != end :: dir[i] == old(dir[i])
    {
      LookupInRange(dir[..], 0, UpToNul(f));
      var found := FileExists(UpToNul(f));
      if found != MAX {
        return EXIT_FILE_EXISTS;
      }
      var entry := FindLast();
      dir[entry] := dir[entry].(attrib := attrib, fSize := size,
                                clHi := cluster / 0x1_0000 % 0x1_0000, clLo := cluster % 0x1_0000);
      dir[entry] := dir[entry].(name := f);
      return EXIT_SUCCESS;
    }
  }

  /** The first cluster is split over two fields and comes back whole. */
  lemma FirstClusterRoundTrip(f: seq<byte>, attrib: byte, cluster: nat, size: nat)
    requires cluster <= MAX
    ensures var e := Entry(f, attrib, cluster, size); e.clHi * 0x1_0000 + e.clLo == cluster
  {
  }

  /** Slots below a changed one are found as before. */
  lemma {:induction false} LookupBelow(dir: seq<DirEntry>, dir': seq<DirEntry>, i: nat, end: nat, name: seq<byte>)
    requires WellFormed(dir) && WellFormed(dir') && |dir'| == |dir| && i <= end <= |dir|
    requires forall k | i <= k < end :: dir'[k] == dir[k] && dir[k].name[0] != 0
    requires end < |dir| ==> dir[end].name[0] == 0
    ensures LookupFrom(dir', i, name) ==
      if LookupFrom(dir, i, name).Some? then LookupFrom(dir, i, name) else LookupFrom(dir', end, name)
    decreases end - i
  {
    if i == end {
    } else {
      LookupBelow(dir, dir', i + 1, end, name);
    }
  }

  /** Entry `i` is one that the scan compares, and holds this name: not deleted, no long name, no
      volume label, not hidden; the name is all eleven bytes or ends at a NUL. */
  predicate Holds(dir: seq<DirEntry>, i: nat, name: seq<byte>)
    requires WellFormed(dir) && i < |dir| && |name| <= 11
  {
    var e := dir[i];
    && e.name[0] != 0xE5 && e.attrib != 0x3F && e.attrib != 0x08 && e.attrib != 0x02
    && name == e.name[..|name|] && 0 !in name && (|name| == 11 || e.name[|name|] == 0)
  }

  /** What a lookup finds: the first entry that holds the name, if the directory does not end before
      it; nothing for the empty name and for names of more than eleven bytes. */
  lemma LookupFindsFirst(dir: seq<DirEntry>, name: seq<byte>)
    requires WellFormed(dir)
    ensures !(0 < |name| <= 11) ==> Lookup(dir, name) == None
    ensures 0 < |name| <= 11 ==>
      match Lookup(dir, name)
      case Some(i) =>
        && i < |dir| && Holds(dir, i, name)
        && forall k | 0 <= k < i :: dir[k].name[0] != 0 && !Holds(dir, k, name)
      case None =>
        forall i | 0 <= i < |dir| && Holds(dir, i, name) :: exists k :: 0 <= k < i && dir[k].name[0] == 0
  {
    if 0 < |name| <= 11 {
      LookupFromFindsFirst(dir, 0, name);
    }
  }

  lemma {:induction false} LookupFromFindsFirst(dir: seq<DirEntry>, from: nat, name: seq<byte>)
    requires WellFormed(dir) && from <= |dir| && 0 < |name| <= 11
    ensures match LookupFrom(dir, from, name)
      case Some(i) =>
        && from <= i < |dir| && Holds(dir, i, name)
        && forall k | from <= k < i :: dir[k].name[0] != 0 && !Holds(dir, k, name)
      case None =>
        forall i | from <= i < |dir| && Holds(dir, i, name) :: exists k :: from <= k < i && dir[k].name[0] == 0
    decreases |dir| - from
  {
    if from == |dir| {
    } else {
      HoldsIff(dir, from, name);
      if dir[from].name[0] != 0 {
        LookupFromFindsFirst(dir, from + 1, name);
      } else {
        forall i | from <= i < |dir| && Holds(dir, i, name) ensures exists k :: from <= k < i && dir[k].name[0] == 0 {
          assert i != from;
          assert dir[from].name[0] == 0;
        }
      }
    }
  }

  lemma HoldsIff(dir: seq<DirEntry>, i: nat, name: seq<byte>)
    requires WellFormed(dir) && i < |dir| && 0 < |name| <= 11
    ensures Holds(dir, i, name) <==> !Skipped(dir[i]) && UpToNul(dir[i].name) == name
  {
    var f := dir[i].name;
    if name == f[..|name|] && 0 !in name && (|name| == 11 || f[|name|] == 0) {
      assert forall k | 0 <= k < |name| :: f[k] == name[k] != 0;
      if |name| < 11 {
        EndIs(f, 0, |name|);
      }
      assert UpToNul(f) == name;
    }
    if UpToNul(f) == name {
      assert forall k | 0 <= k < |name| :: name[k] == f[k] != 0;
    }
  }

  /** A C string that is not empty comes from a field that does not start with NUL. */
  lemma UpToNulEmpty(f: seq<byte>)
    requires |f| == NAME_LENGTH
    ensures UpToNul(f) == [] <==> f[0] == 0
    ensures |UpToNul(f)| <= NAME_LENGTH
  {
  }

  /** After an entry was written at the end of the directory: every name that was found keeps its
      slot; the new name is found in the new slot exactly when it was absent and the entry is
      not one that the scan passes over; any other name is looked for behind the new slot. */
  lemma InsertThenLookup(dir: seq<DirEntry>, e: DirEntry, name: seq<byte>)
    requires Terminated(dir) && |e.name| == NAME_LENGTH
    ensures var end := EndFrom(dir, 0);
      var dir' := dir[end := e];
      var own := UpToNul(e.name);
      && (Lookup(dir, name).Some? ==> Lookup(dir', name) == Lookup(dir, name))
      && (Lookup(dir', own) == Some(end) <==> Lookup(dir, own).None? && e.name[0] != 0 && !Skipped(e))
      && (Lookup(dir, name).None? && name != own && 0 < |name| <= NAME_LENGTH && e.name[0] != 0 ==>
            Lookup(dir', name) == LookupFrom(dir', end + 1, name))
  {
    var end := EndFrom(dir, 0);
    var dir' := dir[end := e];
    UpToNulEmpty(e.name);
    LookupBelow(dir, dir', 0, end, name);
    LookupBelow(dir, dir', 0, end, UpToNul(e.name));
    LookupInRange(dir, 0, UpToNul(e.name));
    LookupInRange(dir', end + 1, UpToNul(e.name));
  }

  lemma {:induction false} LookupInRange(dir: seq<DirEntry>, i: nat, name: seq<byte>)
    requires WellFormed(dir)
    ensures LookupFrom(dir, i, name).Some? ==>
      i <= LookupFrom(dir, i, name).value < |dir| && (i <= |dir| ==> LookupFrom(dir, i, name).value < EndFrom(dir, i))
    decreases |dir| - i
  {
    if i >= |dir| || dir[i].name[0] == 0 {
    } else {
      LookupInRange(dir, i + 1, name);
    }
  }

  // ---------- Filling a directory ----------

  /** One entry after the other, each written at the end that the directory then has. */
  function InsertAll(dir: seq<DirEntry>, entries: seq<DirEntry>): (r: seq<DirEntry>)
    requires WellFormed(dir) && WellFormed(entries)
    ensures |r| == |dir| && WellFormed(r)
    decreases |entries|
  {
    if entries == [] || EndFrom(dir, 0) == |dir| then dir
    else InsertAll(dir[EndFrom(dir, 0) := entries[0]], entries[1..])
  }

  /** Behind its end the buffer holds nothing but empty slots. */
  predicate EmptyTail(dir: seq<DirEntry>) {
    WellFormed(dir) && forall k | EndFrom(dir, 0) <= k < |dir| :: dir[k].name[0] == 0
  }

  predicate Insertable(dir: seq<DirEntry>, e: DirEntry) {
    && WellFormed(dir) && |e.name| == NAME_LENGTH && e.name[0] != 0 && !Skipped(e)
    && Lookup(dir, UpToNul(e.name)).None?
  }

  lemma {:induction false} EndIs'(dir: seq<DirEntry>, i: nat, end: nat)
    requires WellFormed(dir) && i <= end <= |dir|
    requires forall k | i <= k < end :: dir[k].name[0] != 0
    requires end < |dir| ==> dir[end].name[0] == 0
    ensures EndFrom(dir, i) == end
    decreases end - i
  {
    if i < end {
      EndIs'(dir, i + 1, end);
    }
  }

  /** Any number of new entries with different names, written one after the other, take
      consecutive slots; afterwards each is found in its own slot, every older name in its old
      one, and no other name is found. */
  lemma {:induction false} FilledDirectory(dir: seq<DirEntry>, entries: seq<DirEntry>, name: seq<byte>)
    requires WellFormed(entries) && EmptyTail(dir) && EndFrom(dir, 0) + |entries| < |dir|
    requires forall i | 0 <= i < |entries| :: Insertable(dir, entries[i])
    requires forall i, j | 0 <= i < j < |entries| :: UpToNul(entries[i].name) != UpToNul(entries[j].name)
    ensures var dir', end := InsertAll(dir, entries), EndFrom(dir, 0);
      && EmptyTail(dir') && EndFrom(dir', 0) == end + |entries|
      && (Lookup(dir, name).Some? ==> Lookup(dir', name) == Lookup(dir, name))
      && (forall i | 0 <= i < |entries| && UpToNul(entries[i].name) == name :: Lookup(dir', name) == Some(end + i))
      && (Lookup(dir, name).None? && (forall i | 0 <= i < |entries| :: UpToNul(entries[i].name) != name) ==>
            Lookup(dir', name).None?)
    decreases |entries|
  {
    if entries == [] {
    } else {
      var end, e := EndFrom(dir, 0), entries[0];
      var dir1 := dir[end := e];
      EndIs'(dir1, 0, end + 1);
      InsertThenLookup(dir, e, name);
      forall i | 0 <= i < |entries[1..]| ensures Insertable(dir1, entries[1..][i]) {
        assert Insertable(dir, entries[i + 1]);
        UpToNulEmpty(entries[i + 1].name);
        InsertThenLookup(dir, e, UpToNul(entries[i + 1].name));
      }
      FilledDirectory(dir1, entries[1..], name);
      assert InsertAll(dir, entries) == InsertAll(dir1, entries[1..]);
      forall i | 0 <= i < |entries| && UpToNul(entries[i].name) == name
        ensures Lookup(InsertAll(dir, entries), name) == Some(end + i)
      {
        if i > 0 {
          assert entries[1..][i - 1] == entries[i];
        } else {
          assert Insertable(dir, e);
        }
      }
    }
  }
}
