/** Cluster chains of the FAT32 driver (core/drv/FS/fat.c): walking, linking, finding free
    clusters and growing a directory. The table is an array of 32-bit entries indexed by
    cluster number, which is what `FAT32_read_table` and `update_fat` are meant to access;
    `FatSectors` says for which clusters they do. */
module FatChains {

  const END_MARK := 0x0FFF_FFFF
  const FIRST_END := 0x0FFF_FFF8
  const LAST_CLUSTER := 0x0FFF_FFF7
  const MAX_WALK := 127 // slots of the walk buffer after the first

  /** The mask 0x0FFFFFFF: an entry has 28 bits. */
  function Masked(v: nat): nat { v % 0x1000_0000 }

  lemma MaskedTwice(v: nat)
    ensures Masked(Masked(v)) == Masked(v)
  {
  }

  /** `FAT32_read_table`. */
  function ReadTable(fat: seq<nat>, c: nat): nat
    requires c < |fat|
  {
    Masked(fat[c])
  }

  /** Where the walk of `FAT32_readFat` stops. */
  predicate Stops(c: nat) { c == 0 || Masked(c) >= FIRST_END }

  /** Starting at `c` the walk visits exactly `chain`. */
  predicate IsChain(fat: seq<nat>, c: nat, chain: seq<nat>)
    decreases |chain|
  {
    if chain == [] then Stops(c)
    else c == chain[0] && !Stops(c) && c < |fat| && IsChain(fat, ReadTable(fat, c), chain[1..])
  }

  predicate Distinct(s: seq<nat>) { forall i, j | 0 <= i < j < |s| :: s[i] != s[j] }

  /** A chain that starts at its own first cluster and stops at an end mark, not at a free entry. */
  predicate IsFile(fat: seq<nat>, chain: seq<nat>) {
    && chain != []
    && IsChain(fat, chain[0], chain)
    && Last(chain) < |fat| && ReadTable(fat, Last(chain)) != 0
  }

  function Last(s: seq<nat>): nat
    requires s != []
  {
    s[|s| - 1]
  }

  /** Every cluster of the list has an entry in the table. */
  predicate InTable(fat: seq<nat>, list: seq<nat>) { forall i | 0 <= i < |list| :: list[i] < |fat| }

  /** The table after `list` was linked, entry by entry. */
  function Linked(fat: seq<nat>, list: seq<nat>): (r: seq<nat>)
    requires InTable(fat, list)
    ensures |r| == |fat|
    decreases |list|
  {
    if list == [] then fat
    else
      var link := if |list| == 1 then END_MARK else Masked(list[1]);
      Linked(fat[list[0] := link], list[1..])
  }

  /** The free clusters from `from` on, in order. */
  function FreeFrom(fat: seq<nat>, from: nat): (r: seq<nat>)
    ensures forall i | 0 <= i < |r| :: from <= r[i] < |fat| && ReadTable(fat, r[i]) == 0
    decreases |fat| - from
  {
    if from >= |fat| then []
    else (if ReadTable(fat, from) == 0 then [from] else []) + FreeFrom(fat, from + 1)
  }

  class Volume {
    const fat: array<nat>
    const rootCluster: nat

    constructor (fat: array<nat>, rootCluster: nat)
      ensures this.fat == fat && this.rootCluster == rootCluster
    {
      this.fat, this.rootCluster := fat, rootCluster;
    }

    /** `FAT32_readFat`: the start cluster twice, then the rest of its chain. A start that is
        already an end gives the one slot only. */
    method ReadFat(start: nat, ghost chain: seq<nat>) returns (clusters: array<nat>, n: nat)
      requires IsChain(fat[..], start, chain) && |chain| <= MAX_WALK
      ensures fresh(clusters) && n == |chain| + 1 <= clusters.Length
      ensures clusters[..n] == [start] + chain
    {
      clusters := new nat[128](_ => 0);
      clusters[0] := start;
      n := 1;
      var i := 1;
      var cluster := start;
      ghost var rest := chain;
      while cluster != 0 && Masked(cluster) < FIRST_END
        invariant 1 <= n == i <= |chain| + 1 && 0 <= cluster
        invariant rest == chain[n - 1..] && IsChain(fat[..], cluster, rest)
        invariant clusters[..n] == [start] + chain[..n - 1]
        decreases |rest|
      {
        clusters[n] := cluster;
        assert cluster == chain[n - 1];
        cluster := ReadTable(fat[..], cluster);
        rest := rest[1..];
        i := i + 1;
        n := i;
        assert clusters[..n] == clusters[..n - 1] + [chain[n - 2]];
      }
    }

    /** `update_fat`. */
    method UpdateFat(list: seq<nat>)
      requires InTable(fat[..], list)
      modifies fat
      ensures fat[..] == Linked(old(fat[..]), list)
    {
      ghost var before := fat[..];
      var n := |list|;
      var i := 0;
      while i < n
        invariant 0 <= i <= n
        invariant InTable(fat[..], list[i..])
        invariant Linked(before, list) == Linked(fat[..], list[i..])
      {
        var cluster := list[i];
        ghost var t := fat[..];
        if i == n - 1 {
          fat[cluster] := END_MARK;
        } else {
          fat[cluster] := Masked(list[i + 1]);
        }
        assert fat[..] == t[cluster := fat[cluster]];
        assert list[i..][1..] == list[i + 1..];
        i := i + 1;
      }
    }

    /** `seek_empty_clusters`: the first `n` free clusters from the root cluster on. The scan
        has no bound of its own that works, so enough free clusters must exist. */
    method SeekEmptyClusters(n: nat) returns (clusters: array?<nat>)
      requires n <= |FreeFrom(fat[..], rootCluster)| && fat.Length <= LAST_CLUSTER
      ensures n == 0 ==> clusters == null
      ensures n > 0 ==>
        && clusters != null && fresh(clusters) && clusters.Length == n
        && forall k | 0 <= k < n :: clusters[k] == old(FreeFrom(fat[..], rootCluster))[k]
    {
      if n == 0 {
        return null;
      }
      hide FreeFrom, Masked, Scanned;
      ghost var t := fat[..];
      ghost var free := FreeFrom(t, rootCluster);
      var buffer := new nat[n](_ => 0);
      ScanStarts(t, rootCluster);
      var c := 0;
      var i := rootCluster;
      while i < LAST_CLUSTER
        invariant rootCluster <= i && 0 <= c < n
        invariant Scanned(free, i, c)
        invariant forall k | 0 <= k < c :: buffer[k] == free[k]
        decreases LAST_CLUSTER - i
      {
        ScanStep(t, rootCluster, i, c);
        MaskedTwice(fat[i]);
        var cluster := Masked(fat[i]);
        if Masked(cluster) == 0 {
          buffer[c] := i;
          c := c + 1;
        }
        if c >= n {
          break;
        }
        i := i + 1;
      }
      clusters := buffer;
    }

    /** The table part of `dir_prepare_new`: the first free cluster becomes the end of the
        directory's chain. */
    method DirPrepareNew(original: nat, ghost chain: seq<nat>) returns (r: nat)
      requires IsChain(fat[..], original, chain) && 0 < |chain| <= MAX_WALK
      requires FreeFrom(fat[..], rootCluster) != [] && fat.Length <= LAST_CLUSTER
      modifies fat
      ensures r == FreeFrom(old(fat[..]), rootCluster)[0]
      ensures InTable(old(fat[..]), [Last(chain), r])
      ensures fat[..] == Linked(old(fat[..]), [Last(chain), r])
    {
      ChainInTable(fat[..], original, chain);
      var clusters := SeekEmptyClusters(1);
      var fatClusters, nclusters := ReadFat(original, chain);
      r := clusters[0];
      assert fatClusters[nclusters - 1] == fatClusters[..nclusters][nclusters - 1] == Last(chain);
      UpdateFat([fatClusters[nclusters - 1], r]);
    }
  }

  // ---------- Chains ----------

  lemma {:induction false} ChainInTable(fat: seq<nat>, c: nat, chain: seq<nat>)
    requires IsChain(fat, c, chain)
    ensures InTable(fat, chain)
    ensures forall x | x in chain :: !Stops(x)
    decreases |chain|
  {
    if chain == [] {
    } else {
      ChainInTable(fat, ReadTable(fat, c), chain[1..]);
      assert forall i | 0 < i < |chain| :: chain[i] == chain[1..][i - 1];
    }
  }

  /** The walk is a function of where it starts. */
  lemma {:induction false} ChainIsUnique(fat: seq<nat>, c: nat, chain: seq<nat>, other: seq<nat>)
    requires IsChain(fat, c, chain) && IsChain(fat, c, other)
    ensures chain == other
    decreases |chain|
  {
    if chain == [] || other == [] {
    } else {
      ChainIsUnique(fat, ReadTable(fat, c), chain[1..], other[1..]);
      assert chain == [chain[0]] + chain[1..] && other == [other[0]] + other[1..];
    }
  }

  lemma {:induction false} ChainSuffix(fat: seq<nat>, c: nat, chain: seq<nat>, k: nat)
    requires IsChain(fat, c, chain) && k < |chain|
    ensures IsChain(fat, chain[k], chain[k..])
    decreases |chain|
  {
    if k == 0 {
    } else {
      ChainSuffix(fat, ReadTable(fat, c), chain[1..], k - 1);
      assert chain[1..][k - 1..] == chain[k..];
    }
  }

  /** A walk that ends visits no cluster twice. */
  lemma ChainIsAcyclic(fat: seq<nat>, c: nat, chain: seq<nat>)
    requires IsChain(fat, c, chain)
    ensures Distinct(chain)
  {
    forall i, j | 0 <= i < j < |chain| ensures chain[i] != chain[j] {
      ChainSuffix(fat, c, chain, i);
      ChainSuffix(fat, c, chain, j);
      if chain[i] == chain[j] {
        ChainIsUnique(fat, chain[i], chain[i..], chain[j..]);
      }
    }
  }

  /** Entries outside a chain do not matter to it. */
  lemma {:induction false} ChainFrame(fat: seq<nat>, fat': seq<nat>, c: nat, chain: seq<nat>)
    requires IsChain(fat, c, chain) && |fat'| == |fat|
    requires forall x | x in chain && x < |fat| :: fat'[x] == fat[x]
    ensures IsChain(fat', c, chain)
    decreases |chain|
  {
    if chain == [] {
    } else {
      assert chain[0] in chain;
      ChainFrame(fat, fat', ReadTable(fat, c), chain[1..]);
    }
  }

  predicate Linkable(fat: seq<nat>, list: seq<nat>) {
    forall i | 0 <= i < |list| :: 0 < list[i] < |fat| && list[i] < FIRST_END
  }

  /** `update_fat` touches no entry outside its list. */
  lemma {:induction false} LinkedFrame(fat: seq<nat>, list: seq<nat>, c: nat)
    requires InTable(fat, list) && c < |fat| && c !in list
    ensures Linked(fat, list)[c] == fat[c]
    decreases |list|
  {
    if list == [] {
    } else {
      LinkedFrame(fat[list[0] := if |list| == 1 then END_MARK else Masked(list[1])], list[1..], c);
    }
  }

  lemma LinkOne(fat: seq<nat>, a: nat)
    requires a < |fat|
    ensures Linked(fat, [a]) == fat[a := END_MARK]
  {
    assert [a][1..] == [];
  }

  lemma LinkTwo(fat: seq<nat>, a: nat, b: nat)
    requires a < |fat| && b < |fat|
    ensures Linked(fat, [a, b]) == fat[a := Masked(b)][b := END_MARK]
  {
    assert [a, b][1..] == [b];
    LinkOne(fat[a := Masked(b)], b);
  }

  /** The last cluster of the list always gets the end mark. */
  lemma {:induction false} LinkedEnds(fat: seq<nat>, list: seq<nat>)
    requires InTable(fat, list) && list != []
    ensures Linked(fat, list)[Last(list)] == END_MARK
    decreases |list|
  {
    if |list| > 1 {
      LinkedEnds(fat[list[0] := Masked(list[1])], list[1..]);
    } else {
      assert list[1..] == [];
    }
  }

  lemma {:induction false} LinkedIsChain(fat: seq<nat>, list: seq<nat>)
    requires list != [] && Linkable(fat, list) && Distinct(list)
    ensures IsChain(Linked(fat, list), list[0], list)
    decreases |list|
  {
    var c := list[0];
    if |list| == 1 {
      assert list == [c];
      LinkOne(fat, c);
    } else {
      var rest := list[1..];
      var t := fat[c := Masked(list[1])];
      LinkedIsChain(t, rest);
      LinkedFrame(t, rest, c);
      assert Linked(fat, list) == Linked(t, rest);
    }
  }

  /** `update_fat` then `FAT32_readFat` gives the list back exactly when it has no duplicates. */
  lemma UpdateThenReadFat(fat: seq<nat>, list: seq<nat>)
    requires list != [] && Linkable(fat, list)
    ensures IsChain(Linked(fat, list), list[0], list) <==> Distinct(list)
  {
    if Distinct(list) {
      LinkedIsChain(fat, list);
    }
    if IsChain(Linked(fat, list), list[0], list) {
      ChainIsAcyclic(Linked(fat, list), list[0], list);
    }
  }

  // ---------- What stands in the table ----------

  /** Where a walk stops: at the word zero, and at the eight end marks whatever the upper bits. */
  lemma EndMarks(upper: nat, low: nat)
    requires low < 0x1000_0000
    ensures Stops(0x1000_0000 * upper + low) <==> low >= 0x0FFF_FFF8 || (upper == 0 && low == 0)
  {
    assert (0x1000_0000 * upper + low) % 0x1000_0000 == low;
  }

  /** Only the lower 28 bits of an entry count. */
  lemma {:induction false} UpperBitsDoNotMatter(fat: seq<nat>, fat': seq<nat>, c: nat, chain: seq<nat>)
    requires |fat'| == |fat| && forall i | 0 <= i < |fat| :: fat'[i] % 0x1000_0000 == fat[i] % 0x1000_0000
    ensures IsChain(fat', c, chain) <==> IsChain(fat, c, chain)
    decreases |chain|
  {
    if chain == [] || c >= |fat| {
    } else {
      UpperBitsDoNotMatter(fat, fat', ReadTable(fat, c), chain[1..]);
    }
  }

  /** Clusters of the table whose entries name the next one each, and stop behind the last. */
  predicate EntriesLink(fat: seq<nat>, chain: seq<nat>) {
    && chain != []
    && (forall i | 0 <= i < |chain| :: 0 < chain[i] < |fat| && chain[i] % 0x1000_0000 < 0x0FFF_FFF8)
    && (forall i | 0 <= i < |chain| - 1 :: fat[chain[i]] % 0x1000_0000 == chain[i + 1])
    && var stop := fat[Last(chain)] % 0x1000_0000; stop == 0 || stop >= 0x0FFF_FFF8
  }

  /** A walk in terms of the entries of the table. */
  lemma {:induction false} ChainIffEntriesLink(fat: seq<nat>, c: nat, chain: seq<nat>)
    requires chain != []
    ensures IsChain(fat, c, chain) <==> c == chain[0] && EntriesLink(fat, chain)
    decreases |chain|
  {
    var rest := chain[1..];
    if rest == [] {
      assert chain == [chain[0]];
      assert chain[0] < |fat| ==> (IsChain(fat, ReadTable(fat, chain[0]), rest) <==> Stops(ReadTable(fat, chain[0])));
    } else {
      if c == chain[0] && c < |fat| {
        ChainIffEntriesLink(fat, ReadTable(fat, c), rest);
      }
      EntriesLinkRest(fat, chain);
    }
  }

  lemma EntriesLinkRest(fat: seq<nat>, chain: seq<nat>)
    requires |chain| > 1
    ensures EntriesLink(fat, chain) <==>
      && 0 < chain[0] < |fat| && chain[0] % 0x1000_0000 < 0x0FFF_FFF8
      && fat[chain[0]] % 0x1000_0000 == chain[1] && EntriesLink(fat, chain[1..])
  {
    var rest := chain[1..];
    assert Last(rest) == Last(chain);
    assert forall i | 0 < i < |chain| :: chain[i] == rest[i - 1];
    if EntriesLink(fat, chain) {
      forall i | 0 <= i < |rest| - 1 ensures fat[rest[i]] % 0x1000_0000 == rest[i + 1] {
        assert fat[chain[i + 1]] % 0x1000_0000 == chain[i + 1 + 1];
      }
    }
    if 0 < chain[0] < |fat| && fat[chain[0]] % 0x1000_0000 == chain[1] && EntriesLink(fat, rest) {
      forall i | 0 <= i < |chain| - 1 ensures fat[chain[i]] % 0x1000_0000 == chain[i + 1] {
        if i > 0 {
          assert fat[rest[i - 1]] % 0x1000_0000 == rest[i - 1 + 1];
        }
      }
    }
  }

  /** The entries that `update_fat` leaves for distinct clusters: each names the next one, and the
      last one is the end mark. */
  lemma {:induction false} LinkedEntries(fat: seq<nat>, list: seq<nat>)
    requires InTable(fat, list) && Distinct(list) && list != []
    ensures forall i | 0 <= i < |list| - 1 :: Linked(fat, list)[list[i]] == list[i + 1] % 0x1000_0000
    ensures Linked(fat, list)[Last(list)] == 0x0FFF_FFFF
    decreases |list|
  {
    LinkedEnds(fat, list);
    if |list| == 1 {
    } else {
      var rest, t := list[1..], fat[list[0] := Masked(list[1])];
      LinkedEntries(t, rest);
      LinkedFrame(t, rest, list[0]);
      forall i | 0 <= i < |list| - 1 ensures Linked(fat, list)[list[i]] == list[i + 1] % 0x1000_0000 {
        if i > 0 {
          assert list[i] == rest[i - 1] && list[i + 1] == rest[i - 1 + 1];
        }
      }
    }
  }

  /** The free clusters that the scan collects are those with a zero entry. */
  lemma FreeEntries(fat: seq<nat>, from: nat, c: nat)
    ensures c in FreeFrom(fat, from) <==> from <= c < |fat| && fat[c] % 0x1000_0000 == 0
  {
    FreeFromIsComplete(fat, from);
  }

  // ---------- Growing a directory ----------

  lemma {:induction false} InnerEntriesNotFree(fat: seq<nat>, c: nat, chain: seq<nat>, k: nat)
    requires IsChain(fat, c, chain) && k + 1 < |chain|
    ensures chain[k] < |fat| && ReadTable(fat, chain[k]) != 0
  {
    ChainSuffix(fat, c, chain, k);
    ChainSuffix(fat, c, chain, k + 1);
    assert chain[k..][1..] == chain[k + 1..];
  }

  /** No member of a file is a free cluster. */
  lemma FreeIsOutsideFiles(fat: seq<nat>, chain: seq<nat>, free: nat)
    requires IsFile(fat, chain) && free < |fat| && ReadTable(fat, free) == 0
    ensures free !in chain
  {
    forall k | 0 <= k < |chain| ensures chain[k] != free {
      if k + 1 < |chain| {
        InnerEntriesNotFree(fat, chain[0], chain, k);
      }
    }
  }

  /** Re-linking the last cluster of a chain makes its walk go on from there. */
  lemma {:induction false} ExtendChain(fat: seq<nat>, fat': seq<nat>, c: nat, chain: seq<nat>, more: seq<nat>)
    requires chain != [] && IsChain(fat, c, chain) && |fat'| == |fat|
    requires forall k | 0 <= k < |chain| - 1 :: chain[k] < |fat| ==> fat'[chain[k]] == fat[chain[k]]
    requires IsChain(fat', Last(chain), [Last(chain)] + more)
    ensures IsChain(fat', c, chain + more)
    decreases |chain|
  {
    assert (chain + more)[1..] == chain[1..] + more;
    if |chain| == 1 {
      assert chain == [Last(chain)];
    } else {
      assert Last(chain[1..]) == Last(chain);
      assert fat'[chain[0]] == fat[chain[0]];
      ExtendChain(fat, fat', ReadTable(fat, c), chain[1..], more);
    }
  }

  /** `dir_prepare_new` extends the directory's walk by the free cluster it found, exactly when
      that is not the directory's own last cluster; a directory that stops at an end mark is
      always safe. */
  lemma GrowExtendsWalk(fat: seq<nat>, start: nat, chain: seq<nat>, found: nat)
    requires IsChain(fat, start, chain) && chain != []
    requires 0 < found < |fat| && found < FIRST_END && ReadTable(fat, found) == 0
    requires |fat| <= LAST_CLUSTER
    ensures InTable(fat, [Last(chain), found])
    ensures var fat' := Linked(fat, [Last(chain), found]);
      && (IsChain(fat', start, chain + [found]) <==> found != Last(chain))
      && (ReadTable(fat, Last(chain)) != 0 ==> found != Last(chain))
      && ReadTable(fat', found) != 0
  {
    ChainInTable(fat, start, chain);
    var pair := [Last(chain), found];
    var fat' := Linked(fat, pair);
    LinkedEnds(fat, pair);
    if found != Last(chain) {
      GrowFound(fat, start, chain, found);
    } else {
      var longer := chain + [found];
      assert longer[|chain| - 1] == longer[|chain|];
      if IsChain(fat', start, longer) {
        ChainIsAcyclic(fat', start, longer);
      }
    }
  }

  lemma GrowFound(fat: seq<nat>, start: nat, chain: seq<nat>, found: nat)
    requires IsChain(fat, start, chain) && chain != [] && |fat| <= LAST_CLUSTER
    requires 0 < found < |fat| && found != Last(chain) && ReadTable(fat, found) == 0
    requires InTable(fat, [Last(chain), found])
    ensures IsChain(Linked(fat, [Last(chain), found]), start, chain + [found])
  {
    ChainInTable(fat, start, chain);
    ChainIsAcyclic(fat, start, chain);
    var pair := [Last(chain), found];
    assert Last(chain) in chain;
    LinkedIsChain(fat, pair);
    forall k | 0 <= k < |chain| - 1 ensures Linked(fat, pair)[chain[k]] == fat[chain[k]] {
      InnerEntriesNotFree(fat, start, chain, k);
      LinkedFrame(fat, pair, chain[k]);
    }
    assert pair == [Last(chain)] + [found];
    ExtendChain(fat, Linked(fat, pair), start, chain, [found]);
  }

  /** ... and leaves every file that shares no cluster with it as it was. */
  lemma GrowKeepsOtherFiles(fat: seq<nat>, last: nat, found: nat, other: seq<nat>)
    requires IsFile(fat, other) && last < |fat| && last !in other
    requires found < |fat| && ReadTable(fat, found) == 0
    ensures IsFile(Linked(fat, [last, found]), other)
  {
    FreeIsOutsideFiles(fat, other, found);
    forall x | x in other && x < |fat| ensures Linked(fat, [last, found])[x] == fat[x] {
      LinkedFrame(fat, [last, found], x);
    }
    ChainFrame(fat, Linked(fat, [last, found]), other[0], other);
  }

  // ---------- Free clusters ----------

  /** The scan misses no free cluster at or above its start, and meets them in order. */
  lemma {:induction false} FreeFromIsComplete(fat: seq<nat>, from: nat)
    ensures forall c: nat | from <= c < |fat| && ReadTable(fat, c) == 0 :: c in FreeFrom(fat, from)
    ensures forall i, j | 0 <= i < j < |FreeFrom(fat, from)| :: FreeFrom(fat, from)[i] < FreeFrom(fat, from)[j]
    decreases |fat| - from
  {
    if from >= |fat| {
    } else {
      FreeFromIsComplete(fat, from + 1);
    }
  }

  /** Exactly the first `c` of these clusters lie below `i`. */
  predicate Scanned(free: seq<nat>, i: nat, c: nat) {
    c <= |free| && (forall k | 0 <= k < c :: free[k] < i) && (forall k | c <= k < |free| :: i <= free[k])
  }

  lemma ScanStarts(fat: seq<nat>, root: nat)
    ensures Scanned(FreeFrom(fat, root), root, 0)
  {
  }

  /** One step of the scan: while free clusters remain it stays inside the table, and what it
      meets is the next of them exactly when the entry is zero. */
  lemma ScanStep(fat: seq<nat>, root: nat, i: nat, c: nat)
    requires root <= i && Scanned(FreeFrom(fat, root), i, c) && c < |FreeFrom(fat, root)|
    ensures i < |fat|
    ensures if ReadTable(fat, i) == 0 then FreeFrom(fat, root)[c] == i && Scanned(FreeFrom(fat, root), i + 1, c + 1)
            else Scanned(FreeFrom(fat, root), i + 1, c)
  {
    FreeFromIsComplete(fat, root);
    var free := FreeFrom(fat, root);
    if ReadTable(fat, i) == 0 {
      var k :| 0 <= k < |free| && free[k] == i;
    }
  }

  lemma {:induction false} SameFreeClusters(fat: seq<nat>, fat': seq<nat>, from: nat)
    requires |fat'| == |fat|
    requires forall c: nat | from <= c < |fat| :: ReadTable(fat', c) == 0 <==> ReadTable(fat, c) == 0
    ensures FreeFrom(fat', from) == FreeFrom(fat, from)
    decreases |fat| - from
  {
    if from >= |fat| {
    } else {
      SameFreeClusters(fat, fat', from + 1);
    }
  }

  /** Taking the first free cluster leaves all the others. */
  lemma {:induction false} FirstFreeTaken(fat: seq<nat>, fat': seq<nat>, from: nat)
    requires |fat'| == |fat| && FreeFrom(fat, from) != []
    requires forall c: nat | c < |fat| && c != FreeFrom(fat, from)[0] ::
      ReadTable(fat', c) == 0 <==> ReadTable(fat, c) == 0
    requires ReadTable(fat', FreeFrom(fat, from)[0]) != 0
    ensures FreeFrom(fat', from) == FreeFrom(fat, from)[1..]
    decreases |fat| - from
  {
    if ReadTable(fat, from) == 0 {
      SameFreeClusters(fat, fat', from + 1);
    } else {
      FirstFreeTaken(fat, fat', from + 1);
    }
  }
}
