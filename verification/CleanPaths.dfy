/** `iso_clean_path_reverse` (core/drv/FS/iso9660.c). */
module CleanPaths {
  import opened CStrings
  import opened Paths
  import opened PathReverse
  import opened StringHelpers
  import opened DriveIds

  /** The position of the first slash, or the length. */
  function FirstSlash(s: seq<byte>): (k: nat)
    ensures k <= |s| && (forall i | 0 <= i < k :: s[i] != SLASH) && (k < |s| ==> s[k] == SLASH)
  {
    if s == [] || s[0] == SLASH then 0 else 1 + FirstSlash(s[1..])
  }

  /** What is left of a path without drive: reversed, without its first component. */
  function CleanRest(path: seq<byte>): seq<byte> {
    if SLASH !in path then path
    else
      var r := ReversedPath(path);
      if FirstSlash(r) < |r| then r[FirstSlash(r) + 1..] else r
  }

  lemma ReversedKeepsSlash(path: seq<byte>)
    requires SLASH in path
    ensures SLASH in ReversedPath(path) && FirstSlash(ReversedPath(path)) < |ReversedPath(path)|
  {
    if Normalised(path) {
      var parts := Split(path, SLASHES);
      JoinOfSplit(path);
      SplitIsPlain(path);
      assert Plain(parts[0]) && |parts| > 1;
      var r := Reversed(parts);
      assert Join(r)[|r[0]|] == SLASH;
    }
  }

  /** `d1/.../dk/file` becomes `dk/.../d1`; a path of one component stays as it is. */
  lemma CleanReversesDirectories(parts: seq<seq<byte>>)
    requires parts != [] && forall i | 0 <= i < |parts| :: Plain(parts[i]) && parts[i] != []
    ensures var n := |parts| - 1;
      CleanRest(Join(parts)) == if n == 0 then parts[0] else Join(Reversed(parts[..n]))
  {
    var n := |parts| - 1;
    var path := Join(parts);
    SplitOfJoin(parts);
    if n == 0 {
      assert Plain(parts[0]);
    } else {
      assert path[|parts[0]|] == SLASH;
      var dirs, file := parts[..n], parts[n];
      assert parts == dirs + [file];
      ReversedAppend(dirs, file);
      var rest := Join(Reversed(dirs));
      assert Reversed(parts)[1..] == Reversed(dirs);
      var r := ReversedPath(path);
      assert r == file + [SLASH] + rest;
      assert Plain(file) && r[|file|] == SLASH;
      FirstSlashIs(r, |file|);
      assert r[|file| + 1..] == rest;
    }
  }

  /** Any other path with a slash loses everything up to and with the first one. */
  lemma CleanOfOther(front: seq<byte>, rest: seq<byte>)
    requires SLASH !in front && !Normalised(front + [SLASH] + rest)
    ensures CleanRest(front + [SLASH] + rest) == rest
  {
    var path := front + [SLASH] + rest;
    assert path[|front|] == SLASH && forall i | 0 <= i < |front| :: path[i] == front[i] && front[i] in front;
    FirstSlashIs(path, |front|);
    hide Normalised;
    assert path[|front| + 1..] == rest;
  }

  /** `CDn/` and a path. */
  function CdPath(n: nat, parts: seq<seq<byte>>): seq<byte>
    requires n < 10 && parts != []
  {
    [67, 68, 48 + n] + [SLASH] + Join(parts)
  }

  lemma CleanOfCdPath(n: nat, parts: seq<seq<byte>>)
    requires n < 10 && parts != [] && forall i | 0 <= i < |parts| :: Plain(parts[i]) && parts[i] != []
    ensures var text, dirs := CdPath(n, parts), parts[..|parts| - 1];
      && 4 <= |text| && CleanRest(text[4..]) == (if dirs == [] then parts[0] else Join(Reversed(dirs)))
      && CleanRest(text) == Join(Reversed([[67, 68, 48 + n]] + dirs))
  {
    hide CleanRest, Reversed, Join;
    var cd: seq<byte> := [67, 68, 48 + n];
    CleanReversesDirectories(parts);
    assert CdPath(n, parts)[4..] == Join(parts);
    CdPathJoins(n, parts);
    var all := [cd] + parts;
    assert SLASH !in cd;
    assert all[..|all| - 1] == [cd] + parts[..|parts| - 1];
    CleanReversesDirectories(all);
  }

  lemma CdPathJoins(n: nat, parts: seq<seq<byte>>)
    requires n < 10 && parts != []
    ensures CdPath(n, parts) == Join([[67, 68, 48 + n]] + parts)
  {
    assert ([[67, 68, 48 + n]] + parts)[1..] == parts;
  }

  lemma FirstSlashIs(s: seq<byte>, k: nat)
    requires k < |s| && s[k] == SLASH && forall i | 0 <= i < k :: s[i] != SLASH
    ensures FirstSlash(s) == k
  {
  }

  // ---------- When the path really ends up reversed ----------

  /** What is terminated in the result block is the beginning of the reversed path, and the slash
      before the block does not hit the terminator of the path. */
  ghost predicate Reverses(m: seq<byte>, path: nat, target: nat)
    requires IsString(m, path) && target + |Str(m, path)| < |m|
  {
    var text := Str(m, path);
    && UpToNul(Block(m, path, target)) <= ReversedPath(text)
    && !(Normalised(text) && target - 1 == path + |text|)
  }

  /** For a normalised path one byte of the block decides; for any other path a NUL at the start
      of the block is enough, and without one the path gets the first byte of the block. */
  lemma ReversesIff(m: seq<byte>, path: nat, target: nat)
    requires IsString(m, path) && target + |Str(m, path)| < |m|
    ensures var text, b := Str(m, path), Block(m, path, target);
      && (Normalised(text) ==>
            (Reverses(m, path, target) <==> m[target + |text|] == 0 && target - 1 != path + |text|))
      && (!Normalised(text) ==>
            && b[0] == m[target]
            && (m[target] == 0 ==> Reverses(m, path, target))
            && (m[target] != 0 && Reverses(m, path, target) ==> text != [] && m[target] == text[0]))
  {
    var text, b := Str(m, path), Block(m, path, target);
    var d := m[target..target + |text| + 1];
    PiecesFillPath(text);
    if Normalised(text) {
      BlockOfNormalised(text, d);
      ReversedPathLength(text);
      ReversedHasNoNul(text);
      UpToNulOfReversed(ReversedPath(text), d[|text|]);
    } else {
      BlockOfOther(text, d);
      hide ResultBlock, Pieces, Normalised;
      assert UpToNul(b) == [] <==> b[0] == 0;
      assert b[0] != 0 ==> UpToNul(b)[0] == b[0];
    }
  }

  lemma UpToNulOfReversed(r: seq<byte>, last: byte)
    requires forall i | 0 <= i < |r| :: r[i] != 0
    ensures UpToNul(r + [last]) <= r <==> last == 0
    ensures last == 0 ==> UpToNul(r + [last]) == r
  {
    var b := r + [last];
    assert forall i | 0 <= i < |r| :: b[i] != 0;
    if last == 0 {
      EndIs(b, 0, |r|);
    } else {
      EndAtLeast(b, 0, |r|);
    }
  }

  /** `reverse_path` leaves the reversed path where the path was exactly under this condition;
      otherwise the path is another string, or not terminated where it should be. */
  lemma ReversedInPlace(m: seq<byte>, m': seq<byte>, path: nat, backup: nat, target: nat, stop: nat)
    requires IsString(m, path) && Layout(|m|, path, backup, target, |Str(m, path)|)
    requires PathReversed(m, m', path, backup, target, stop)
    ensures IsString(m', path) && Str(m', path) == ReversedPath(Str(m, path)) <==> Reverses(m, path, target)
  {
    if IsString(m', path) && Str(m', path) == ReversedPath(Str(m, path)) {
      OnlyThenReversed(m, m', path, backup, target, stop);
    }
    if Reverses(m, path, target) {
      ThenReversed(m, m', path, backup, target, stop);
    }
  }

  lemma ThenReversed(m: seq<byte>, m': seq<byte>, path: nat, backup: nat, target: nat, stop: nat)
    requires IsString(m, path) && Layout(|m|, path, backup, target, |Str(m, path)|)
    requires PathReversed(m, m', path, backup, target, stop) && Reverses(m, path, target)
    ensures IsString(m', path) && Str(m', path) == ReversedPath(Str(m, path))
  {
    var text, r := Str(m, path), ReversedPath(Str(m, path));
    var n, k := |text|, |UpToNul(Block(m, path, target))|;
    ReversedPathLength(text);
    ReversedHasNoNul(text);
    ReversedEnds(m, path, target);
    hide Block, ReversedPath, Normalised, Span;
    assert m[path + n] == 0 && forall i | path <= i < path + n :: m[i] == text[i - path];
    forall i | path <= i < path + n ensures m'[i] == r[i - path] {
      if i < path + k {
        assert Block(m, path, target)[i - path] == UpToNul(Block(m, path, target))[i - path];
      }
    }
    assert m'[path + n] == 0;
    EndIs(m', path, path + n);
  }

  lemma ReversedEnds(m: seq<byte>, path: nat, target: nat)
    requires IsString(m, path) && target + |Str(m, path)| < |m| && Reverses(m, path, target)
    ensures |UpToNul(Block(m, path, target))| <= |Str(m, path)|
    ensures Normalised(Str(m, path)) ==> UpToNul(Block(m, path, target)) == ReversedPath(Str(m, path))
  {
    var text := Str(m, path);
    var d := m[target..target + |text| + 1];
    PiecesFillPath(text);
    ReversedPathLength(text);
    if Normalised(text) {
      ReversedHasNoNul(text);
      BlockOfNormalised(text, d);
      UpToNulOfReversed(ReversedPath(text), d[|text|]);
    }
  }

  lemma OnlyThenReversed(m: seq<byte>, m': seq<byte>, path: nat, backup: nat, target: nat, stop: nat)
    requires IsString(m, path) && Layout(|m|, path, backup, target, |Str(m, path)|)
    requires PathReversed(m, m', path, backup, target, stop)
    requires IsString(m', path) && Str(m', path) == ReversedPath(Str(m, path))
    ensures Reverses(m, path, target)
  {
    var text, b := Str(m, path), Block(m, path, target);
    var r, n, k := ReversedPath(text), |text|, |UpToNul(b)|;
    ReversedPathLength(text);
    hide Block, ReversedPath, Normalised;
    assert m'[path + n] == 0 && forall i | 0 <= i < n :: m'[path + i] == r[i];
    assert k <= n;
    forall i | 0 <= i < k ensures UpToNul(b)[i] == r[i] {
      assert m'[path + i] == b[i];
    }
  }

  // ---------- The whole function ----------

  /** The part of `iso_clean_path_reverse` after the drive is gone. A path with a slash is
      reversed, so the blocks for that must be there and do their work. */
  method ReverseAndDrop(s: StringMemory, p: nat, backup: nat, target: nat)
    requires IsString(s.mem[..], p) && s.mem.Length <= MAX
    requires SLASH in Str(s.mem[..], p) ==>
      Layout(s.mem.Length, p, backup, target, |Str(s.mem[..], p)|) && Reverses(s.mem[..], p, target)
    modifies s, s.mem
    ensures IsString(s.mem[..], p) && Str(s.mem[..], p) == CleanRest(old(Str(s.mem[..], p)))
  {
    hide Scan, ReversedPath, PathReversed, Normalised, Span, Reverses, Removed, Block;
    ghost var m := s.mem[..];
    FindByte(Str(m, p), SLASH);
    var loc := FindInStr(s, p, [SLASH]);
    if loc == MAX {
      return;
    }
    ReversedKeepsSlash(Str(m, p));
    ReversedEnds(m, p, target);
    ReversePath(s, p, backup, target, 0);
    ThenReversed(m, s.mem[..], p, backup, target, 0);
    ghost var m1 := s.mem[..];
    FindByte(Str(m1, p), SLASH);
    var slash := FindInStr(s, p, [SLASH]);
    FoundIsFirst(ReversedPath(Str(m, p)), slash);
    RemovedString(m1, p, slash + 1);
    RemoveFromStr(s, p, slash + 1);
  }

  lemma FoundIsFirst(s: seq<byte>, k: nat)
    requires k < |s| && s[k] == SLASH && SLASH !in s[..k]
    ensures FirstSlash(s) == k
  {
    assert forall i | 0 <= i < k :: s[i] == s[..k][i];
    FirstSlashIs(s, k);
  }

  /** The memory once the drive is gone. */
  function WithoutDrive(m: seq<byte>, p: nat, drives: seq<byte>): (r: seq<byte>)
    requires IsString(m, p) && p + 4 < |m| && |drives| <= 4 && 4 <= End(m, p)
    ensures |r| == |m|
  {
    if StripsDrive(m, p, drives) then Removed(m, p, 4) else m
  }

  /** What is left of the path then. A path that is stripped although it is shorter than four
      bytes stays whole. */
  function DriveStripped(m: seq<byte>, p: nat, drives: seq<byte>): seq<byte>
    requires IsString(m, p) && p + 4 < |m| && |drives| <= 4
  {
    if StripsDrive(m, p, drives) && 4 <= |Str(m, p)| then Str(m, p)[4..] else Str(m, p)
  }

  lemma WithoutDriveIs(m: seq<byte>, p: nat, drives: seq<byte>)
    requires IsString(m, p) && p + 4 < |m| && |drives| <= 4 && 4 <= End(m, p)
    ensures var r := WithoutDrive(m, p, drives);
      IsString(r, p) && Str(r, p) == DriveStripped(m, p, drives)
  {
    hide StripsDrive, Removed;
    RemovedString(m, p, 4);
  }

  /** The promise of `iso_clean_path_reverse`: for a CD drive that is there, `CDn/d1/.../dk/file`
      becomes `dk/.../d1` and `CDn/file` becomes `file`. For one that is not, the drive stays
      and ends up as the last directory. */
  lemma CleanCdPath(m: seq<byte>, p: nat, drives: seq<byte>, n: nat, parts: seq<seq<byte>>)
    requires IsString(m, p) && p + 4 < |m| && |drives| <= 4 && n < 10
    requires parts != [] && forall i | 0 <= i < |parts| :: Plain(parts[i]) && parts[i] != []
    requires Str(m, p) == CdPath(n, parts)
    ensures var dirs := parts[..|parts| - 1];
      CleanRest(DriveStripped(m, p, drives)) ==
        if Count(drives, 1) <= n then Join(Reversed([[67, 68, 48 + n]] + dirs))
        else if dirs == [] then parts[0]
        else Join(Reversed(dirs))
  {
    var text := Str(m, p);
    assert text[0] == 67 && text[1] == 68 && text[2] == 48 + n && text[3] == SLASH;
    assert m[p + 2] == text[2] && m[p + 3] == text[3];
    StripsDriveIff(m, p, drives);
    hide StripsDrive, CleanRest, Reversed, Join, CdPath, Str;
    CleanOfCdPath(n, parts);
  }

  /** `iso_clean_path_reverse`. The two blocks that `reverse_path` takes from the heap are
      parameters; they are needed, and must do their work, when a slash is left. */
  method CleanPathReverse(s: StringMemory, p: nat, drives: seq<byte>, backup: nat, target: nat)
    requires IsString(s.mem[..], p) && p + 4 < s.mem.Length && |drives| <= 4 && s.mem.Length <= MAX
    requires 4 <= End(s.mem[..], p)
    requires var m := WithoutDrive(s.mem[..], p, drives);
      IsString(m, p) && SLASH in Str(m, p) ==>
        Layout(|m|, p, backup, target, |Str(m, p)|) && Reverses(m, p, target)
    modifies s, s.mem
    ensures IsString(s.mem[..], p)
    ensures Str(s.mem[..], p) == CleanRest(old(DriveStripped(s.mem[..], p, drives)))
  {
    hide Span, Removed, Reverses, CleanRest;
    WithoutDriveIs(s.mem[..], p, drives);
    var id := ConvertId(s, p, drives);
    if id / 0x100 != 0xFF {
      RemoveFromStr(s, p, 4);
    }
    ReverseAndDrop(s, p, backup, target);
  }
}
