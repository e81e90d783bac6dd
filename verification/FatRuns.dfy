/** What saving files does to the FAT (`FAT_save_file`, core/drv/FS/fat.c): one save, and whole runs
    of saves, with the directory growth that happens inside them (`dir_prepare_new`). */
module FatRuns {
  import opened CStrings
  import opened FatChains
  import opened FatDirectory

  // ---------- Files that do not touch ----------

  /** A table, and the first clusters of the files and directories on it. */
  datatype Disk = Disk(fat: seq<nat>, heads: seq<nat>)

  predicate Disjoint(a: seq<nat>, b: seq<nat>) {
    forall i, j | 0 <= i < |a| && 0 <= j < |b| :: a[i] != b[j]
  }

  /** These are the chains of the disk: each ends properly, and no two share a cluster. */
  predicate Chains(d: Disk, files: seq<seq<nat>>) {
    && |files| == |d.heads| && |d.fat| <= LAST_CLUSTER
    && (forall k | 0 <= k < |files| :: IsFile(d.fat, files[k]) && files[k][0] == d.heads[k])
    && (forall k, l | 0 <= k < l < |files| :: Disjoint(files[k], files[l]))
  }

  ghost predicate Sound(d: Disk) { exists files :: Chains(d, files) }

  lemma CreateKeepsFile(fat: seq<nat>, file: seq<nat>, found: nat)
    requires IsFile(fat, file) && found < |fat| && ReadTable(fat, found) == 0
    ensures IsFile(Linked(fat, [found]), file) && Disjoint(file, [found])
  {
    FreeIsOutsideFiles(fat, file, found);
    forall x | x in file && x < |fat| ensures Linked(fat, [found])[x] == fat[x] {
      LinkedFrame(fat, [found], x);
    }
    ChainFrame(fat, Linked(fat, [found]), file[0], file);
  }

  /** Starting a one-cluster file keeps all chains proper and apart. */
  lemma CreateKeepsChains(d: Disk, files: seq<seq<nat>>, found: nat)
    requires Chains(d, files) && 0 < found < |d.fat| && ReadTable(d.fat, found) == 0
    ensures Chains(Disk(Linked(d.fat, [found]), d.heads + [found]), files + [[found]])
  {
    LinkedIsChain(d.fat, [found]);
    LinkedEnds(d.fat, [found]);
    forall k | 0 <= k < |files| ensures IsFile(Linked(d.fat, [found]), files[k]) && Disjoint(files[k], [found]) {
      CreateKeepsFile(d.fat, files[k], found);
    }
  }

  /** So does one call of `dir_prepare_new`, for the chain of any directory. */
  lemma GrowKeepsChains(d: Disk, files: seq<seq<nat>>, k: nat, found: nat)
    requires Chains(d, files) && k < |files| && 0 < found < |d.fat| && ReadTable(d.fat, found) == 0
    ensures InTable(d.fat, [Last(files[k]), found])
    ensures Chains(Disk(Linked(d.fat, [Last(files[k]), found]), d.heads), files[k := files[k] + [found]])
  {
    var file := files[k];
    GrowExtendsWalk(d.fat, file[0], file, found);
    var files' := files[k := file + [found]];
    var fat' := Linked(d.fat, [Last(file), found]);
    forall l | 0 <= l < |files| && l != k
      ensures IsFile(fat', files[l])
      ensures Disjoint(files[l], files'[k]) && Disjoint(files'[k], files[l])
    {
      assert if k < l then Disjoint(file, files[l]) else Disjoint(files[l], file);
      assert Last(file) !in files[l];
      GrowKeepsOtherFiles(d.fat, Last(file), found, files[l]);
      FreeIsOutsideFiles(d.fat, files[l], found);
    }
  }

  // ---------- Saving a file ----------

  const SECTOR_SIZE := 512
  const ENTRY_SIZE := 32 // bytes of a directory slot

  /** The guard of `update_dir`: the first free slot lies behind one cluster of slots. */
  predicate NeedsCluster(slots: seq<DirEntry>, sectclust: nat)
    requires WellFormed(slots)
  {
    EndFrom(slots, 0) * ENTRY_SIZE >= SECTOR_SIZE * sectclust
  }

  /** The table after `FAT_save_file` stored a one-cluster file in the directory with these slots
      and this chain. The cluster is looked up first and linked last; when the directory needs a
      cluster in between, `dir_prepare_new` looks one up in the same table. A name that is there
      already ends the call. */
  function AfterSave(fat: seq<nat>, root: nat, dir: seq<nat>, slots: seq<DirEntry>, sectclust: nat,
                     name: seq<byte>): seq<nat>
    requires FreeFrom(fat, root) != [] && dir != [] && Last(dir) < |fat| && WellFormed(slots)
  {
    var cluster := FreeFrom(fat, root)[0];
    if Lookup(slots, name).Some? then fat
    else if NeedsCluster(slots, sectclust) then Linked(Linked(fat, [Last(dir), cluster]), [cluster])
    else Linked(fat, [cluster])
  }

  /** The table part of `FAT_save_file`, for a file of one cluster. */
  method SaveFile(v: Volume, d: Directory, sectclust: nat, name: seq<byte>, first: nat, ghost dir: seq<nat>)
    returns (error: nat)
    requires IsFile(v.fat[..], dir) && first == dir[0] && |dir| <= MAX_WALK && v.fat.Length <= LAST_CLUSTER
    requires FreeFrom(v.fat[..], v.rootCluster) != []
    requires Terminated(d.dir[..]) && d.dir.Length <= MAX
    modifies v.fat
    ensures v.fat[..] == AfterSave(old(v.fat[..]), v.rootCluster, dir, d.dir[..], sectclust, name)
    ensures error == if Lookup(d.dir[..], name).Some? then EXIT_FILE_EXISTS else EXIT_SUCCESS
  {
    LookupInRange(d.dir[..], 0, name);
    hide IsChain, FreeFrom, Linked, LookupFrom, EndFrom;
    var clusters := v.SeekEmptyClusters(1);
    var cluster := clusters[0];
    var found := d.FileExists(name);
    if found != MAX {
      return EXIT_FILE_EXISTS;
    }
    var entry := d.FindLast();
    if entry * ENTRY_SIZE >= SECTOR_SIZE * sectclust {
      var _ := v.DirPrepareNew(first, dir);
    }
    v.UpdateFat([cluster]);
    return EXIT_SUCCESS;
  }

  /** What the table then holds: the file is a chain of its own cluster, and the directory's chain
      has grown by that very cluster when the directory needed one. */
  lemma SavedChains(fat: seq<nat>, root: nat, dir: seq<nat>, slots: seq<DirEntry>, sectclust: nat, name: seq<byte>)
    requires IsFile(fat, dir) && FreeFrom(fat, root) != [] && 0 < root && |fat| <= LAST_CLUSTER
    requires WellFormed(slots)
    ensures var cluster, fat' := FreeFrom(fat, root)[0], AfterSave(fat, root, dir, slots, sectclust, name);
      && cluster !in dir && IsChain(fat', cluster, [cluster])
      && IsChain(fat', dir[0],
                 if Lookup(slots, name).None? && NeedsCluster(slots, sectclust) then dir + [cluster] else dir)
      && (Lookup(slots, name).None? ==> IsFile(fat', [cluster]))
  {
    var cluster := FreeFrom(fat, root)[0];
    FreeIsOutsideFiles(fat, dir, cluster);
    hide Lookup, EndFrom, FreeFrom;
    if Lookup(slots, name).Some? {
      assert [cluster][1..] == [];
    } else if NeedsCluster(slots, sectclust) {
      var grown := Linked(fat, [Last(dir), cluster]);
      GrowExtendsWalk(fat, dir[0], dir, cluster);
      LinkedEnds(fat, [Last(dir), cluster]);
      LinkOne(grown, cluster);
      assert Linked(grown, [cluster]) == grown;
      ChainSuffix(grown, dir[0], dir + [cluster], |dir|);
      assert (dir + [cluster])[|dir|..] == [cluster];
    } else {
      CreateKeepsFile(fat, dir, cluster);
      LinkedIsChain(fat, [cluster]);
      LinkedEnds(fat, [cluster]);
    }
  }

  /** A saved one-cluster file and its directory share a cluster exactly when the new entry did
      not fit into one cluster of slots: in the resulting table the walk from the file's cluster
      and the walk from the directory's first one then meet. */
  lemma SaveSharesClusterIffDirectoryGrows(fat: seq<nat>, root: nat, dir: seq<nat>, slots: seq<DirEntry>,
                                           sectclust: nat, name: seq<byte>, fileWalk: seq<nat>, dirWalk: seq<nat>)
    requires IsFile(fat, dir) && FreeFrom(fat, root) != [] && 0 < root && |fat| <= LAST_CLUSTER
    requires WellFormed(slots)
    requires IsChain(AfterSave(fat, root, dir, slots, sectclust, name), FreeFrom(fat, root)[0], fileWalk)
    requires IsChain(AfterSave(fat, root, dir, slots, sectclust, name), dir[0], dirWalk)
    ensures !Disjoint(fileWalk, dirWalk) <==>
      Lookup(slots, name).None? && EndFrom(slots, 0) * ENTRY_SIZE >= SECTOR_SIZE * sectclust
  {
    var cluster, fat' := FreeFrom(fat, root)[0], AfterSave(fat, root, dir, slots, sectclust, name);
    SavedChains(fat, root, dir, slots, sectclust, name);
    hide AfterSave, IsChain, FreeFrom, EndFrom, Lookup;
    ChainIsUnique(fat', cluster, fileWalk, [cluster]);
    ChainIsUnique(fat', dir[0], dirWalk,
                  if Lookup(slots, name).None? && NeedsCluster(slots, sectclust) then dir + [cluster] else dir);
    assert (dir + [cluster])[|dir|] == cluster;
  }

  // ---------- Runs of saves ----------

  /** One save: in which directory, its chain and its slots as they are then, and the name. */
  datatype Save = Save(dir: nat, chain: seq<nat>, slots: seq<DirEntry>, sectclust: nat, name: seq<byte>)

  predicate IsNew(s: Save)
    requires WellFormed(s.slots)
  {
    Lookup(s.slots, s.name).None?
  }

  predicate Grows(s: Save)
    requires WellFormed(s.slots)
  {
    IsNew(s) && NeedsCluster(s.slots, s.sectclust)
  }

  /** The directory is there, its chain is the walk that `FAT32_readFat` makes, and a cluster is
      free. */
  predicate Allowed(d: Disk, root: nat, s: Save) {
    && |d.fat| <= LAST_CLUSTER && FreeFrom(d.fat, root) != [] && WellFormed(s.slots)
    && s.dir < |d.heads| && IsFile(d.fat, s.chain) && s.chain[0] == d.heads[s.dir] && |s.chain| <= MAX_WALK
  }

  function Step(d: Disk, root: nat, s: Save): Disk
    requires Allowed(d, root, s)
  {
    Disk(AfterSave(d.fat, root, s.chain, s.slots, s.sectclust, s.name),
         if IsNew(s) then d.heads + [FreeFrom(d.fat, root)[0]] else d.heads)
  }

  /** A save changes the entries of the directory's last cluster and of the free cluster only. */
  lemma SaveFrame(d: Disk, root: nat, s: Save, x: nat)
    requires Allowed(d, root, s) && x < |d.fat|
    ensures |Step(d, root, s).fat| == |d.fat|
    ensures x != Last(s.chain) && x != FreeFrom(d.fat, root)[0] ==> Step(d, root, s).fat[x] == d.fat[x]
  {
    if x != Last(s.chain) && x != FreeFrom(d.fat, root)[0] {
      var cluster := FreeFrom(d.fat, root)[0];
      LinkedFrame(d.fat, [cluster], x);
      LinkedFrame(d.fat, [Last(s.chain), cluster], x);
      LinkedFrame(Linked(d.fat, [Last(s.chain), cluster]), [cluster], x);
    }
  }

  /** A save takes the first free cluster when the name is new, and otherwise none. */
  lemma SaveTakesOneCluster(d: Disk, root: nat, s: Save)
    requires Allowed(d, root, s) && 0 < root
    ensures FreeFrom(Step(d, root, s).fat, root) ==
      if IsNew(s) then FreeFrom(d.fat, root)[1..] else FreeFrom(d.fat, root)
  {
    if IsNew(s) {
      var cluster, last, fat' := FreeFrom(d.fat, root)[0], Last(s.chain), Step(d, root, s).fat;
      SavedEntries(d, root, s);
      forall c: nat | c < |d.fat| && c != cluster ensures ReadTable(fat', c) == 0 <==> ReadTable(d.fat, c) == 0 {
        SaveFrame(d, root, s, c);
      }
      FirstFreeTaken(d.fat, fat', root);
    }
  }

  /** What a save leaves in the table: nothing new when the name is there; otherwise an end mark at
      the file's cluster, and a link to it behind the directory's last one when that had to grow. */
  lemma SavedEntries(d: Disk, root: nat, s: Save)
    requires Allowed(d, root, s) && 0 < root
    ensures var fat', cluster, last := Step(d, root, s).fat, FreeFrom(d.fat, root)[0], Last(s.chain);
      && |fat'| == |d.fat|
      && (!IsNew(s) ==> fat' == d.fat)
      && (IsNew(s) ==> cluster != last && fat'[cluster] == 0x0FFF_FFFF)
      && (IsNew(s) ==> fat'[last] == if Grows(s) then cluster else d.fat[last])
  {
    var cluster, last := FreeFrom(d.fat, root)[0], Last(s.chain);
    FreeIsOutsideFiles(d.fat, s.chain, cluster);
    assert last in s.chain;
    hide FreeFrom, Lookup, EndFrom, Linked;
    LinkOne(d.fat, cluster);
    LinkTwo(d.fat, last, cluster);
    LinkOne(Linked(d.fat, [last, cluster]), cluster);
  }

  /** Links one after the other. */
  predicate Path(fat: seq<nat>, p: seq<nat>) {
    && p != []
    && (forall i | 0 <= i < |p| :: p[i] < |fat| && !Stops(p[i]))
    && (forall i | 0 <= i < |p| - 1 :: ReadTable(fat, p[i]) == p[i + 1])
  }

  lemma ChainIsPath(fat: seq<nat>, c: nat, chain: seq<nat>)
    requires IsChain(fat, c, chain) && chain != []
    ensures Path(fat, chain)
    ensures Stops(ReadTable(fat, Last(chain)))
  {
    ChainInTable(fat, c, chain);
    forall i | 0 <= i < |chain| - 1 ensures ReadTable(fat, chain[i]) == chain[i + 1] {
      ChainSuffix(fat, c, chain, i);
      assert chain[i..][1..] == chain[i + 1..];
    }
    ChainSuffix(fat, c, chain, |chain| - 1);
    assert chain[|chain| - 1..][1..] == [];
  }

  /** What a path reaches lies on the walk from its start. */
  lemma {:induction false} PathOnChain(fat: seq<nat>, p: seq<nat>, chain: seq<nat>)
    requires Path(fat, p) && IsChain(fat, p[0], chain)
    ensures Last(p) in chain
    decreases |p|
  {
    if |p| == 1 {
      assert chain != [];
    } else {
      assert ReadTable(fat, p[0]) == p[1] && Last(p[1..]) == Last(p);
      assert forall i | 0 <= i < |p[1..]| - 1 :: ReadTable(fat, p[1..][i]) == p[1..][i + 1] by {
        forall i | 0 <= i < |p[1..]| - 1 ensures ReadTable(fat, p[1..][i]) == p[1..][i + 1] {
          assert ReadTable(fat, p[i + 1]) == p[i + 1 + 1];
        }
      }
      PathOnChain(fat, p[1..], chain[1..]);
    }
  }

  /** A save never breaks a path: it re-links only clusters that lead nowhere. */
  lemma PathsStay(d: Disk, root: nat, s: Save, p: seq<nat>)
    requires Allowed(d, root, s) && Path(d.fat, p)
    ensures Path(Step(d, root, s).fat, p)
  {
    var fat' := Step(d, root, s).fat;
    ChainIsPath(d.fat, s.chain[0], s.chain);
    SaveFrame(d, root, s, p[0]);
    forall i | 0 <= i < |p| - 1 ensures ReadTable(fat', p[i]) == p[i + 1] {
      assert ReadTable(d.fat, p[i]) == p[i + 1] && !Stops(p[i + 1]);
      SaveFrame(d, root, s, p[i]);
    }
  }

  /** Two first clusters from which the same cluster is reached. */
  ghost predicate Meet(d: Disk, k: nat, l: nat, p: seq<nat>, q: seq<nat>) {
    && k < l < |d.heads| && Path(d.fat, p) && Path(d.fat, q)
    && p[0] == d.heads[k] && q[0] == d.heads[l] && Last(p) == Last(q)
  }

  lemma MeetingIsUnsound(d: Disk, k: nat, l: nat, p: seq<nat>, q: seq<nat>)
    requires Meet(d, k, l, p, q)
    ensures !Sound(d)
  {
    forall files | Chains(d, files) ensures false {
      PathOnChain(d.fat, p, files[k]);
      PathOnChain(d.fat, q, files[l]);
      assert false;
    }
  }

  /** A save that grows its directory makes the directory and the new file meet. */
  lemma GrowingMeets(d: Disk, root: nat, s: Save) returns (p: seq<nat>, q: seq<nat>)
    requires Allowed(d, root, s) && 0 < root && Grows(s)
    ensures Meet(Step(d, root, s), s.dir, |d.heads|, p, q)
  {
    var cluster := FreeFrom(d.fat, root)[0];
    SavedChains(d.fat, root, s.chain, s.slots, s.sectclust, s.name);
    p, q := s.chain + [cluster], [cluster];
    hide AfterSave, FreeFrom;
    ChainIsPath(Step(d, root, s).fat, s.chain[0], p);
    ChainIsPath(Step(d, root, s).fat, cluster, q);
  }

  /** Any other save keeps a sound disk sound. */
  lemma SaveKeepsSound(d: Disk, root: nat, s: Save)
    requires Allowed(d, root, s) && 0 < root && Sound(d) && !Grows(s)
    ensures Sound(Step(d, root, s))
  {
    var files :| Chains(d, files);
    if IsNew(s) {
      var cluster := FreeFrom(d.fat, root)[0];
      CreateKeepsChains(d, files, cluster);
      assert Step(d, root, s) == Disk(Linked(d.fat, [cluster]), d.heads + [cluster]);
    } else {
      assert Step(d, root, s) == d;
    }
  }

  /** A run, as the list of disks it goes through. */
  ghost predicate IsRun(disks: seq<Disk>, root: nat, saves: seq<Save>) {
    && |disks| == |saves| + 1
    && forall i | 0 <= i < |saves| ::
         Allowed(disks[i], root, saves[i]) && disks[i + 1] == Step(disks[i], root, saves[i])
  }

  /** No save of a run grew its directory. */
  predicate NoneGrows(saves: seq<Save>) {
    forall i | 0 <= i < |saves| :: WellFormed(saves[i].slots) && !Grows(saves[i])
  }

  /** Two files or directories share a cluster. */
  ghost predicate Sharing(d: Disk) { exists k: nat, l: nat, p: seq<nat>, q: seq<nat> :: Meet(d, k, l, p, q) }

  lemma SaveKeepsSharing(d: Disk, root: nat, s: Save)
    requires Allowed(d, root, s) && 0 < root && (Sharing(d) || Grows(s))
    ensures Sharing(Step(d, root, s)) && !Sound(Step(d, root, s))
  {
    hide Path, Step, Sound, Grows;
    var k: nat, l: nat, p: seq<nat>, q: seq<nat>;
    if Sharing(d) {
      k, l, p, q :| Meet(d, k, l, p, q);
      PathsStay(d, root, s, p);
      PathsStay(d, root, s, q);
      HeadsStay(d, root, s);
      assert Meet(Step(d, root, s), k, l, p, q);
    } else {
      k, l := s.dir, |d.heads|;
      p, q := GrowingMeets(d, root, s);
    }
    MeetingIsUnsound(Step(d, root, s), k, l, p, q);
  }

  lemma HeadsStay(d: Disk, root: nat, s: Save)
    requires Allowed(d, root, s)
    ensures |d.heads| <= |Step(d, root, s).heads| && d.heads == Step(d, root, s).heads[..|d.heads|]
  {
  }

  /** What a run of saves from a sound disk on leaves: as long as no save grows its directory all
      chains stay proper and apart, and from the first one that does on, two of them share a
      cluster for ever. */
  lemma {:induction false} SoundIffNoneGrows(disks: seq<Disk>, root: nat, saves: seq<Save>, n: nat)
    requires IsRun(disks, root, saves) && Sound(disks[0]) && 0 < root && n <= |saves|
    ensures Sound(disks[n]) <==> NoneGrows(saves[..n])
    ensures Sound(disks[n]) <==> !Sharing(disks[n])
  {
    hide Sound, Sharing, Step, Grows;
    if n == 0 {
      SoundIsApart(disks[0]);
    } else {
      SoundIffNoneGrows(disks, root, saves, n - 1);
      var d, s := disks[n - 1], saves[n - 1];
      assert Allowed(d, root, s) && disks[n - 1 + 1] == Step(d, root, s);
      assert saves[..n] == saves[..n - 1] + [s];
      hide IsRun, Allowed;
      if Sharing(d) || Grows(s) {
        SaveKeepsSharing(d, root, s);
      } else {
        SaveKeepsSound(d, root, s);
        SoundIsApart(Step(d, root, s));
      }
    }
  }

  lemma SoundIsApart(d: Disk)
    requires Sound(d)
    ensures !Sharing(d)
  {
    forall k: nat, l: nat, p: seq<nat>, q: seq<nat> | Meet(d, k, l, p, q) ensures false {
      MeetingIsUnsound(d, k, l, p, q);
    }
  }

  predicate AllWellFormed(saves: seq<Save>) { forall i | 0 <= i < |saves| :: WellFormed(saves[i].slots) }

  /** How many saves stored a new name. */
  function Stored(saves: seq<Save>): nat
    requires AllWellFormed(saves)
  {
    if saves == [] then 0 else Stored(saves[..|saves| - 1]) + if IsNew(saves[|saves| - 1]) then 1 else 0
  }

  lemma RunIsWellFormed(disks: seq<Disk>, root: nat, saves: seq<Save>, n: nat)
    requires IsRun(disks, root, saves) && n <= |saves|
    ensures AllWellFormed(saves[..n])
  {
    forall i | 0 <= i < n ensures WellFormed(saves[..n][i].slots) {
      assert Allowed(disks[i], root, saves[i]);
    }
  }

  lemma StoredNext(saves: seq<Save>, s: Save)
    requires AllWellFormed(saves) && WellFormed(s.slots)
    ensures AllWellFormed(saves + [s])
    ensures Stored(saves + [s]) == Stored(saves) + if IsNew(s) then 1 else 0
  {
    assert (saves + [s])[..|saves|] == saves;
  }

  /** In any run, each save of a new name costs exactly one free cluster, also those that share
      it. */
  lemma {:induction false} RunsSpendClusters(disks: seq<Disk>, root: nat, saves: seq<Save>, n: nat)
    requires IsRun(disks, root, saves) && 0 < root && n <= |saves|
    ensures AllWellFormed(saves[..n])
    ensures Stored(saves[..n]) <= |FreeFrom(disks[0].fat, root)|
    ensures FreeFrom(disks[n].fat, root) == FreeFrom(disks[0].fat, root)[Stored(saves[..n])..]
  {
    RunIsWellFormed(disks, root, saves, n);
    if n == 0 {
    } else {
      RunsSpendClusters(disks, root, saves, n - 1);
      var d, s := disks[n - 1], saves[n - 1];
      assert Allowed(d, root, s) && disks[n - 1 + 1] == Step(d, root, s) && FreeFrom(d.fat, root) != [];
      assert saves[..n] == saves[..n - 1] + [s];
      hide IsRun, Allowed, Step, FreeFrom, IsNew, Stored, WellFormed, AllWellFormed;
      StoredNext(saves[..n - 1], s);
      SaveTakesOneCluster(d, root, s);
    }
  }

  /** When a directory of new entries needs a cluster: as soon as its slots fill one. */
  lemma GuardCountsEntries(slots: seq<DirEntry>, entries: seq<DirEntry>, sectclust: nat)
    requires WellFormed(entries) && EmptyTail(slots) && EndFrom(slots, 0) + |entries| < |slots|
    requires forall i | 0 <= i < |entries| :: Insertable(slots, entries[i])
    requires forall i, j | 0 <= i < j < |entries| :: UpToNul(entries[i].name) != UpToNul(entries[j].name)
    ensures NeedsCluster(InsertAll(slots, entries), sectclust) <==> EndFrom(slots, 0) + |entries| >= 16 * sectclust
  {
    FilledDirectory(slots, entries, []);
  }
}
