/** `reverse_path` (core/drv/FS/iso9660.c) over the byte memory, with its `strtok` loop and
    its unsigned index. */
module PathReverse {
  import opened CStrings
  import opened Paths

  /** Two ranges of `n + 1` bytes do not meet. */
  predicate Apart(a: nat, b: nat, n: nat) { a + n < b || b + n < a }

  /** The path, and the two blocks `reverse_path` gets from the heap: its copy and its result. */
  predicate Layout(size: nat, path: nat, backup: nat, target: nat, n: nat) {
    && 0 < path && 0 < backup && 0 < target && size <= 0x1_0000_0000
    && path + n < size && backup + n < size && target + n < size
    && Apart(path, backup, n) && Apart(path, target, n) && Apart(backup, target, n)
  }

  /** What stays the same while the loop runs: the memory it started from, the pieces and the
      length of the path, and where the copy and the result block are. */
  datatype Site = Site(m0: seq<byte>, pieces: seq<seq<byte>>, n: nat, backup: nat, target: nat)

  ghost predicate ValidSite(c: Site) {
    && 0 < c.target && c.target + c.n < |c.m0| <= 0x1_0000_0000 && Apart(c.backup, c.target, c.n)
    && TotalLength(c.pieces) <= c.n + 1 && forall i | 0 <= i < |c.pieces| :: c.pieces[i] != []
  }

  /** The index of the loop after these components, as an integer: -2 once everything is written,
      a slash before the result included. */
  function Left(c: Site, done: seq<seq<byte>>): int { c.n - 1 - TotalLength(done) }

  /** What the loop has written so far: `done` components stand right-aligned in the result, and
      nothing else has changed outside the copy. */
  ghost predicate Placed(c: Site, m: seq<byte>, done: seq<seq<byte>>)
    requires ValidSite(c)
  {
    && |m| == |c.m0| && -2 <= Left(c, done)
    && (forall i | 0 <= i < |m| && !(c.backup <= i < c.backup + c.n)
          && !(c.target + Left(c, done) < i < c.target + c.n) :: m[i] == c.m0[i])
    && (forall i | 0 <= i < |Written(done)| :: m[c.target + Left(c, done) + 1 + i] == Written(done)[i])
  }

  /** A string inside the copy of the path. */
  ghost predicate InCopy(c: Site, m: seq<byte>, p: nat) {
    0 < c.backup <= p && IsString(m, p) && End(m, p) <= c.backup + c.n
  }

  /** Where the tokeniser stands: a component at hand, or none left. */
  ghost predicate Cursor(c: Site, m: seq<byte>, holder: nat, current: nat, todo: seq<seq<byte>>) {
    && (holder != NULL ==> current != NULL && InCopy(c, m, holder))
    && (current != NULL ==> InCopy(c, m, current))
    && todo == if current == NULL then [] else [Str(m, current)] + Ahead(m, holder, SLASHES)
  }

  /** These components are the first ones of the path. */
  predicate Taken(c: Site, done: seq<seq<byte>>) { |done| <= |c.pieces| && c.pieces[..|done|] == done }

  /** There is room for the component at hand; after it the index is zero only when the pieces
      do not fill the path, and minus one only after the last piece. */
  lemma RoomForComponent(c: Site, done: seq<seq<byte>>, p: seq<byte>, rest: seq<seq<byte>>)
    requires ValidSite(c) && Taken(c, done) && c.pieces[|done|..] == [p] + rest
    ensures Taken(c, done + [p]) && c.pieces[|done + [p]|..] == rest
    ensures |p| <= Left(c, done) + 1 && Left(c, done + [p]) == Left(c, done) - |p| - 1 >= -2
    ensures TotalLength(done + [p]) == c.n ==> c.pieces == done + [p]
  {
    var pieces := c.pieces;
    assert pieces == pieces[..|done|] + pieces[|done|..];
    assert pieces == (done + [p]) + rest;
    TotalLengthAppend(done, p);
    TotalLengthConcat(done + [p], rest);
    if rest != [] {
      assert pieces[|done| + 1] == rest[0];
    }
  }

  /** The copy that `create_backup_str` makes. */
  lemma StringCopied(m: seq<byte>, m': seq<byte>, path: nat, backup: nat)
    requires IsString(m, path) && |m'| == |m| && 0 < backup
    requires Apart(path, backup, |Str(m, path)|) && backup + |Str(m, path)| < |m|
    requires Copied(m, m', backup, path, |Str(m, path)| + 1)
    ensures IsString(m', path) && Str(m', path) == Str(m, path)
    ensures IsString(m', backup) && Str(m', backup) == Str(m, path) && End(m', backup) == backup + |Str(m, path)|
  {
    var n := |Str(m, path)|;
    assert m[path + n] == 0 && End(m, path) == path + n;
    assert forall i | backup <= i < backup + n :: m'[i] == m[path + i - backup] && m[path + i - backup] != 0;
    EndIs(m', path, path + n);
    EndIs(m', backup, backup + n);
  }

  lemma ReversedHasNoNul(text: seq<byte>)
    requires forall i | 0 <= i < |text| :: text[i] != 0
    ensures forall i | 0 <= i < |ReversedPath(text)| :: ReversedPath(text)[i] != 0
  {
    var parts := Split(text, SLASHES);
    SplitHasNoNul(text);
    forall i | 0 <= i < |parts| ensures 0 !in Reversed(parts)[i] {
      ReversedAt(parts, i);
    }
    JoinHasNoNul(Reversed(parts));
  }

  lemma {:induction false} SplitHasNoNul(text: seq<byte>)
    requires 0 !in text
    ensures forall i | 0 <= i < |Split(text, SLASHES)| :: 0 !in Split(text, SLASHES)[i]
  {
    if text == [] {
    } else {
      SplitHasNoNul(text[1..]);
      assert 0 !in Split(text[1..], SLASHES)[0];
    }
  }

  lemma {:induction false} JoinHasNoNul(parts: seq<seq<byte>>)
    requires parts != [] && forall i | 0 <= i < |parts| :: 0 !in parts[i]
    ensures 0 !in Join(parts)
  {
    assert 0 !in parts[0];
    if |parts| == 1 {
    } else {
      JoinHasNoNul(parts[1..]);
    }
  }

  /** Every component taken, and one delimiter after it, lies before the cursor. */
  ghost predicate Behind(c: Site, done: seq<seq<byte>>, holder: nat) {
    holder != NULL ==> TotalLength(done) <= holder - c.backup
  }

  /** Changes inside the copy do not touch what was written. */
  lemma PlacedFrame(c: Site, m: seq<byte>, m': seq<byte>, done: seq<seq<byte>>)
    requires ValidSite(c) && Placed(c, m, done) && |m'| == |m|
    requires forall i | 0 <= i < |m| && !(c.backup <= i < c.backup + c.n) :: m'[i] == m[i]
    ensures Placed(c, m', done)
  {
    hide Written, TotalLength;
  }

  /** Calling `strtok` changes the copy only. */
  lemma StrtokInCopy(c: Site, m: seq<byte>, holder: nat)
    requires holder != NULL && InCopy(c, m, holder)
    ensures var t := NextToken(m, holder, SLASHES);
      && InPlace(m, holder, t)
      && (forall i | 0 <= i < |m| && !(c.backup <= i < c.backup + c.n) :: t.mem[i] == m[i])
      && (t.holder != NULL ==> InCopy(c, t.mem, t.holder))
      && (t.token != NULL ==> InCopy(c, t.mem, t.token))
  {
    TokenMemory(m, holder, SLASHES);
    hide NextToken, Span;
  }

  /** It moves the cursor behind the component it returns. */
  lemma StrtokMoves(c: Site, m: seq<byte>, holder: nat, done: seq<seq<byte>>)
    requires holder != NULL && InCopy(c, m, holder) && Behind(c, done, holder)
    ensures var t := NextToken(m, holder, SLASHES);
      && Cursor(c, t.mem, t.holder, t.token, Ahead(m, holder, SLASHES))
      && (t.token != NULL ==> Behind(c, done + [Str(t.mem, t.token)], t.holder))
  {
    StrtokInCopy(c, m, holder);
    TokenStep(m, holder, SLASHES);
    hide NextToken, Span, Pieces;
    var t := NextToken(m, holder, SLASHES);
    if t.token != NULL {
      TotalLengthAppend(done, Str(t.mem, t.token));
    }
  }

  /** Calling `strtok` moves the cursor and leaves what was written. */
  lemma CallStrtok(c: Site, m: seq<byte>, holder: nat, done: seq<seq<byte>>)
    requires ValidSite(c) && Placed(c, m, done)
    requires holder != NULL ==> InCopy(c, m, holder)
    requires Behind(c, done, holder)
    ensures var t := NextToken(m, holder, SLASHES);
      && Placed(c, t.mem, done)
      && Cursor(c, t.mem, t.holder, t.token, if holder == NULL then [] else Ahead(m, holder, SLASHES))
      && (t.token != NULL ==> Behind(c, done + [Str(t.mem, t.token)], t.holder))
  {
    if holder != NULL {
      StrtokInCopy(c, m, holder);
      StrtokMoves(c, m, holder, done);
      hide NextToken, Ahead, Placed, InCopy, Cursor, Behind;
      PlacedFrame(c, m, NextToken(m, holder, SLASHES).mem, done);
    }
  }

  /** A byte of the block: still what it was, or a byte of what was written. */
  lemma PlacedAt(c: Site, m: seq<byte>, done: seq<seq<byte>>, i: nat)
    requires ValidSite(c) && Placed(c, m, done) && i <= c.n
    ensures m[c.target + i] ==
      if Left(c, done) < i < c.n then Written(done)[i - Left(c, done) - 1] else c.m0[c.target + i]
  {
    hide Written, TotalLength;
    var at := Left(c, done);
    if at < i < c.n {
      assert m[c.target + at + 1 + (i - at - 1)] == Written(done)[i - at - 1];
    }
  }

  /** All components written: the block is the one that was promised. */
  lemma BlockWhenDone(c: Site, m: seq<byte>)
    requires ValidSite(c) && Placed(c, m, c.pieces)
    requires c.pieces != [] ==> Left(c, c.pieces) != -1
    ensures m[c.target..c.target + c.n + 1] == ResultBlock(c.m0[c.target..c.target + c.n + 1], c.pieces)
    ensures TotalLength(c.pieces) == c.n + 1 ==> m[c.target - 1] == SLASH
  {
    var w := Written(c.pieces);
    assert c.pieces != [] ==> w != [] && w[0] == SLASH;
    assert w != [] ==> m[c.target + Left(c, c.pieces) + 1 + 0] == w[0];
    hide TotalLength, Written, Placed, ResultBlock;
    var d := c.m0[c.target..c.target + c.n + 1];
    var b := ResultBlock(d, c.pieces);
    forall i | 0 <= i < |b| ensures m[c.target + i] == b[i] {
      PlacedAt(c, m, c.pieces, i);
      ResultBlockAt(d, c.pieces, i);
    }
    SliceIs(m, c.target, b);
  }

  lemma SliceIs(m: seq<byte>, p: nat, b: seq<byte>)
    requires p + |b| <= |m| && forall i | 0 <= i < |b| :: m[p + i] == b[i]
    ensures m[p..p + |b|] == b
  {
  }

  /** An index that is negative as an integer still reaches the byte it means, and only zero
      is zero. */
  lemma Unsigned(target: nat, index: nat, at: int, length: nat)
    requires index == U32(at) && length <= at + 1 && 0 < target && target + at + 1 < 0x1_0000_0000
    ensures At(target, U32(index - length + 1)) == target + at - length + 1
    ensures At(target, U32(index - length)) == target + at - length
    ensures U32(index - length) == U32(at - length)
    ensures U32(index - length) == 0 <==> at == length
    ensures U32(U32(index - length) - 1) == U32(at - length - 1)
  {
    Decrement(at - length);
    Wrap(at);
    Wrap(index - length);
    Wrap(at - length);
    Wrap(index - length + 1);
    Wrap(target + U32(index - length + 1));
    Wrap(target + U32(index - length));
  }

  lemma Decrement(x: int)
    requires -1 <= x < 0x1_0000_0000
    ensures U32(U32(x) - 1) == U32(x - 1)
  {
    Wrap(x);
    Wrap(x - 1);
    Wrap(U32(x) - 1);
  }

  /** The component at `current` ends at `target + at`, behind a slash unless there was no room
      for one. */
  ghost predicate WordPlaced(m: seq<byte>, m': seq<byte>, current: nat, target: nat, at: int, stop: bool)
    requires current <= |m|
  {
    var p := Str(m, current);
    && |m'| == |m| && |p| <= at + 1 && 0 < target && target + at < |m|
    && (stop <==> at == |p|)
    && (forall i | 0 <= i < |p| :: m'[target + at - |p| + 1 + i] == p[i])
    && (if stop then m'[target] == m[target] else m'[target + at - |p|] == SLASH)
    && (forall i | 0 <= i < |m| && !(target + at - |p| <= i <= target + at) :: m'[i] == m[i])
  }

  lemma WordIsPlaced(m: seq<byte>, m1: seq<byte>, current: nat, target: nat, at: int)
    requires current <= |m| && |Str(m, current)| <= at + 1 && 0 < target && target + at < |m|
    requires Copied(m, m1, target + at - |Str(m, current)| + 1, current, |Str(m, current)|)
    ensures WordPlaced(m, if at == |Str(m, current)| then m1 else m1[target + at - |Str(m, current)| := SLASH],
                       current, target, at, at == |Str(m, current)|)
  {
    var p := Str(m, current);
    var dst := target + at - |p| + 1;
    assert forall i | 0 <= i < |p| :: m1[dst + i] == m[current + i] == p[i];
  }

  /** Writing a component and the slash before it. */
  lemma PlaceComponent(c: Site, m: seq<byte>, m': seq<byte>, done: seq<seq<byte>>, current: nat)
    requires ValidSite(c) && Placed(c, m, done)
    requires current <= |m| && WordPlaced(m, m', current, c.target, Left(c, done), false)
    ensures Placed(c, m', done + [Str(m, current)])
  {
    hide Str, Span, Split;
    var p, at := Str(m, current), Left(c, done);
    TotalLengthAppend(done, p);
    WrittenAppend(done, p);
    var w := Written(done + [p]);
    forall i | 0 <= i < |w| ensures m'[c.target + (at - |p| - 1) + 1 + i] == w[i] {
      if i > |p| {
        assert w[i] == Written(done)[i - |p| - 1];
      } else if i > 0 {
        assert m'[c.target + at - |p| + 1 + (i - 1)] == p[i - 1];
      }
    }
  }

  /** The component at `current` fits to the left of `target + at`, and does not meet it. */
  ghost predicate Fits(m: seq<byte>, current: nat, target: nat, index: nat, at: int) {
    && |m| <= 0x1_0000_0000 && IsString(m, current)
    && index == U32(at) && 0 < target && -1 <= at && target + at + 1 < |m|
    && var p := Str(m, current);
      |p| <= at + 1 && (target + at < current || current + |p| < target)
  }

  /** Copy the component to the left of what is there. */
  method CopyWord(s: StringMemory, target: nat, index: nat, current: nat, ghost at: int) returns (length: nat)
    requires Fits(s.mem[..], current, target, index, at)
    modifies s.mem
    ensures length == |old(Str(s.mem[..], current))| <= at + 1
    ensures Copied(old(s.mem[..]), s.mem[..], target + at - length + 1, current, length)
  {
    length := s.Strlen(current);
    assert current + length < s.mem.Length;
    hide Copied, CopyUp, U32, At, Span, Str;
    Unsigned(target, index, at, length);
    s.Memcpy(At(target, U32(index - length + 1)), current, length);
  }

  /** The body of the loop up to the next `strtok`: copy the component, and put a slash before it
      unless that position is the very first. */
  method PlaceWord(s: StringMemory, target: nat, index: nat, current: nat, ghost at: int)
    returns (stop: bool, left: nat)
    requires Fits(s.mem[..], current, target, index, at)
    modifies s.mem
    ensures WordPlaced(old(s.mem[..]), s.mem[..], current, target, at, stop)
    ensures !stop ==> left == U32(at - |old(Str(s.mem[..], current))| - 1)
  {
    hide WordPlaced, Copied, U32, At, Span, Str;
    ghost var m := s.mem[..];
    ghost var p := Str(m, current);
    var length := CopyWord(s, target, index, current, at);
    ghost var m1 := s.mem[..];
    Unsigned(target, index, at, length);
    left := U32(index - length);
    stop := left == 0;
    if !stop {
      s.mem[At(target, left)] := SLASH;
      left := U32(left as int - 1);
    }
    assert s.mem[..] == if stop then m1 else m1[target + at - |p| := SLASH];
    WordIsPlaced(m, m1, current, target, at);
  }

  /** What the loop wrote does not reach the rest of the copy while there is a rest. */
  lemma CopyUntouched(c: Site, m: seq<byte>, m': seq<byte>, done: seq<seq<byte>>, p: seq<byte>, holder: nat)
    requires ValidSite(c) && |m'| == |m| && Behind(c, done + [p], holder)
    requires var at := Left(c, done);
      forall i | 0 <= i < |m| && !(c.target + at - |p| <= i <= c.target + at) :: m'[i] == m[i]
    requires holder != NULL ==> InCopy(c, m, holder)
    ensures holder != NULL ==> InCopy(c, m', holder) && Ahead(m', holder, SLASHES) == Ahead(m, holder, SLASHES)
  {
    if holder != NULL {
      TotalLengthAppend(done, p);
      StrFrame(m, m', holder);
    }
  }

  /** The state of the loop: what was written, where the tokeniser stands, and the unsigned
      index. */
  ghost predicate Looping(c: Site, m: seq<byte>, holder: nat, current: nat, done: seq<seq<byte>>, index: nat) {
    && ValidSite(c) && Placed(c, m, done) && Taken(c, done)
    && Cursor(c, m, holder, current, c.pieces[|done|..])
    && (current != NULL ==> Behind(c, done + [Str(m, current)], holder))
    && index == U32(Left(c, done))
    && (done != [] ==> Left(c, done) != -1)
  }

  /** The state of the loop just before it calls `strtok`. */
  ghost predicate Between(c: Site, m: seq<byte>, holder: nat, done: seq<seq<byte>>) {
    && ValidSite(c) && Placed(c, m, done) && Taken(c, done)
    && (holder != NULL ==> InCopy(c, m, holder))
    && Behind(c, done, holder)
    && c.pieces[|done|..] == (if holder == NULL then [] else Ahead(m, holder, SLASHES))
    && (done != [] ==> Left(c, done) != -1)
  }

  /** The loop was left early: the pieces do not fill the path, all of them stand in the result
      without the first slash, and nothing outside the two blocks has changed. */
  ghost predicate Stopped(c: Site, m: seq<byte>) {
    && ValidSite(c) && 0 < c.n == TotalLength(c.pieces) && |m| == |c.m0|
    && (forall i | 0 < i < c.n :: m[c.target + i] == Written(c.pieces)[i])
    && (forall i | 0 <= i < |m| && !(c.backup <= i < c.backup + c.n) && !(c.target < i < c.target + c.n) ::
          m[i] == c.m0[i])
  }

  lemma BlockWhenStopped(c: Site, m: seq<byte>)
    requires Stopped(c, m)
    ensures m[c.target..c.target + c.n + 1] == ResultBlock(c.m0[c.target..c.target + c.n + 1], c.pieces)
  {
    hide TotalLength, Written, ResultBlock;
    var d := c.m0[c.target..c.target + c.n + 1];
    var b := ResultBlock(d, c.pieces);
    forall i | 0 <= i < |b| ensures m[c.target + i] == b[i] {
      ResultBlockAt(d, c.pieces, i);
    }
    SliceIs(m, c.target, b);
  }

  /** What the loop leaves, over whatever the result block held; outside the two blocks only the
      byte before the result may have changed. */
  ghost predicate Finished(m0: seq<byte>, m: seq<byte>, text: seq<byte>, backup: nat, target: nat) {
    var n, pieces := |text|, Pieces(text, SLASHES);
    && |m| == |m0| && 0 < target && target + n < |m| && TotalLength(pieces) <= n + 1
    && m[target..target + n + 1] == ResultBlock(m0[target..target + n + 1], pieces)
    && (Normalised(text) ==> m[target - 1] == SLASH)
    && (forall i | 0 <= i < |m| && !(backup <= i < backup + n) && !(target <= i <= target + n)
          && !(Normalised(text) && i == target - 1) :: m[i] == m0[i])
  }

  function SiteOf(m0: seq<byte>, text: seq<byte>, backup: nat, target: nat): Site {
    Site(m0, Pieces(text, SLASHES), |text|, backup, target)
  }

  lemma LoopDone(c: Site, m: seq<byte>, text: seq<byte>, holder: nat, done: seq<seq<byte>>, index: nat)
    requires c == SiteOf(c.m0, text, c.backup, c.target) && Looping(c, m, holder, NULL, done, index)
    ensures Finished(c.m0, m, text, c.backup, c.target)
  {
    hide Written, ResultBlock, Normalised, Pieces;
    assert c.pieces == done;
    PiecesFillPath(text);
    BlockWhenDone(c, m);
  }

  lemma LoopStopped(c: Site, m: seq<byte>, text: seq<byte>)
    requires c == SiteOf(c.m0, text, c.backup, c.target) && Stopped(c, m)
    ensures Finished(c.m0, m, text, c.backup, c.target)
  {
    hide Written, ResultBlock, Normalised, Pieces;
    PiecesFillPath(text);
    BlockWhenStopped(c, m);
  }

  /** Leaving the loop early means that the pieces do not fill the path. */
  lemma LoopStops(c: Site, m: seq<byte>, m': seq<byte>, holder: nat, current: nat, done: seq<seq<byte>>, index: nat)
    requires Looping(c, m, holder, current, done, index) && current != NULL
    requires WordPlaced(m, m', current, c.target, Left(c, done), true)
    ensures Stopped(c, m')
  {
    hide Str, Pieces, Written, TotalLength, Cursor, Behind;
    NextPiece(c, m, holder, current, done, index);
    var p, at := Str(m, current), Left(c, done);
    RoomForComponent(c, done, p, Ahead(m, holder, SLASHES));
    WrittenAppend(done, p);
    assert c.pieces == done + [p];
    forall i | 0 < i < c.n ensures m'[c.target + i] == Written(c.pieces)[i] {
      if i <= |p| {
        assert m'[c.target + at - |p| + 1 + (i - 1)] == p[i - 1];
      } else {
        PlacedAt(c, m, done, i);
      }
    }
  }

  lemma NextPiece(c: Site, m: seq<byte>, holder: nat, current: nat, done: seq<seq<byte>>, index: nat)
    requires Looping(c, m, holder, current, done, index) && current != NULL
    ensures current <= |m| && holder <= |m|
    ensures c.pieces[|done|..] == [Str(m, current)] + Ahead(m, holder, SLASHES)
  {
  }

  /** The loop goes on with the next component: the word is in place, and the rest of the copy
      is as it was. */
  lemma LoopGoesOn(c: Site, m: seq<byte>, m': seq<byte>, holder: nat, current: nat, done: seq<seq<byte>>, index: nat)
    requires Looping(c, m, holder, current, done, index) && current != NULL
    requires WordPlaced(m, m', current, c.target, Left(c, done), false)
    ensures Between(c, m', holder, done + [Str(m, current)])
  {
    var p := Str(m, current);
    RoomForComponent(c, done, p, Ahead(m, holder, SLASHES));
    PlaceComponent(c, m, m', done, current);
    CopyUntouched(c, m, m', done, p, holder);
  }

  lemma LoopStep(c: Site, m: seq<byte>, m': seq<byte>, holder: nat, current: nat, done: seq<seq<byte>>, index: nat,
                 stop: bool)
    requires Looping(c, m, holder, current, done, index) && current != NULL
    requires WordPlaced(m, m', current, c.target, Left(c, done), stop)
    ensures stop ==> Stopped(c, m')
    ensures !stop ==> Between(c, m', holder, done + [Str(m, current)])
  {
    if stop {
      LoopStops(c, m, m', holder, current, done, index);
    } else {
      LoopGoesOn(c, m, m', holder, current, done, index);
    }
  }

  /** `strtok` then gives the next state of the loop. */
  lemma LoopTokenised(c: Site, m: seq<byte>, holder: nat, done: seq<seq<byte>>)
    requires Between(c, m, holder, done)
    ensures holder != NULL ==> IsString(m, holder)
    ensures var t := NextToken(m, holder, SLASHES);
      Looping(c, t.mem, t.holder, t.token, done, U32(Left(c, done)))
  {
    CallStrtok(c, m, holder, done);
  }

  /** There is room for the component at hand. */
  lemma LoopHasRoom(c: Site, m: seq<byte>, holder: nat, current: nat, done: seq<seq<byte>>, index: nat)
    requires Looping(c, m, holder, current, done, index) && current != NULL
    ensures Fits(m, current, c.target, index, Left(c, done))
    ensures |Str(m, current)| + 1 == Left(c, done) - Left(c, done + [Str(m, current)])
  {
    RoomForComponent(c, done, Str(m, current), Ahead(m, holder, SLASHES));
  }

  lemma LoopStarts(m: seq<byte>, m0: seq<byte>, path: nat, backup: nat, target: nat)
    requires IsString(m, path) && Layout(|m|, path, backup, target, |Str(m, path)|) && |m0| == |m|
    requires Copied(m, m0, backup, path, |Str(m, path)| + 1)
    ensures IsString(m0, backup)
    ensures var t, n := NextToken(m0, backup, SLASHES), |Str(m, path)|;
      Looping(SiteOf(m0, Str(m, path), backup, target), t.mem, t.holder, t.token, [], U32(n - 1))
  {
    hide Looping, Between, NextToken;
    BetweenAtStart(m, m0, path, backup, target);
    LoopTokenised(SiteOf(m0, Str(m, path), backup, target), m0, backup, []);
  }

  lemma BetweenAtStart(m: seq<byte>, m0: seq<byte>, path: nat, backup: nat, target: nat)
    requires IsString(m, path) && Layout(|m|, path, backup, target, |Str(m, path)|) && |m0| == |m|
    requires Copied(m, m0, backup, path, |Str(m, path)| + 1)
    ensures IsString(m0, backup)
    ensures Between(SiteOf(m0, Str(m, path), backup, target), m0, backup, [])
  {
    StringCopied(m, m0, path, backup);
    var c := SiteOf(m0, Str(m, path), backup, target);
    PiecesFillPath(Str(m, path));
    hide Pieces, Span, Copied, Normalised;
    assert c.pieces[0..] == c.pieces && c.pieces[..0] == [];
  }

  /** The result block when the loop is done. */
  ghost function Block(m: seq<byte>, path: nat, target: nat): (b: seq<byte>)
    requires IsString(m, path) && target + |Str(m, path)| < |m|
    ensures |b| == |Str(m, path)| + 1
  {
    var text := Str(m, path);
    PiecesFillPath(text);
    ResultBlock(m[target..target + |text| + 1], Pieces(text, SLASHES))
  }

  /** A NUL ends the result inside its block, or else at `stop` behind it, and then there is room
      for that much where the path stands. */
  ghost predicate Ends(m: seq<byte>, path: nat, backup: nat, target: nat, stop: nat)
    requires IsString(m, path) && target + |Str(m, path)| < |m|
  {
    var n := |Str(m, path)|;
    |UpToNul(Block(m, path, target))| > n ==>
      && target + n <= stop < |m| && path + (stop - target) <= |m|
      && (stop == backup + n || (m[stop] == 0 && !(backup <= stop < backup + n)))
  }

  /** The memory after `reverse_path`. The C string in the result block, as far as the block goes,
      stands where the path was; besides the two blocks the byte just before the result becomes a
      slash, but only for a normalised path. A result that is not terminated inside its block
      overwrites what follows the path, too. */
  ghost predicate PathReversed(m: seq<byte>, m': seq<byte>, path: nat, backup: nat, target: nat, stop: nat)
    requires IsString(m, path) && target + |Str(m, path)| < |m|
  {
    var text, b := Str(m, path), Block(m, path, target);
    var n, k := |text|, |UpToNul(b)|;
    && |m'| == |m| && path + n < |m| && 0 < target
    && (forall i | path <= i < path + k :: m'[i] == b[i - path])
    && (Normalised(text) && k <= n ==> m'[target - 1] == SLASH)
    && (forall i | 0 <= i < |m|
          && !(path <= i < path + if k <= n then k else stop - target)
          && !(backup <= i <= backup + n) && !(target <= i <= target + n)
          && !(Normalised(text) && i == target - 1) :: m'[i] == m[i])
  }

  /** How long the result is when it is copied back. */
  lemma ResultLength(m: seq<byte>, m0: seq<byte>, m1: seq<byte>, path: nat, backup: nat, target: nat, stop: nat)
    requires IsString(m, path) && Layout(|m|, path, backup, target, |Str(m, path)|)
    requires Ends(m, path, backup, target, stop)
    requires Copied(m, m0, backup, path, |Str(m, path)| + 1)
    requires Finished(m0, m1, Str(m, path), backup, target)
    ensures IsString(m1, target) && path + |Str(m1, target)| <= |m|
    ensures var n, b := |Str(m, path)|, Block(m, path, target);
      && m1[target..target + n + 1] == b
      && if |UpToNul(b)| <= n then |Str(m1, target)| == |UpToNul(b)| else n < |Str(m1, target)| <= stop - target
  {
    hide Pieces, Normalised, ResultBlock;
    var n, b := |Str(m, path)|, Block(m, path, target);
    assert m0[target..target + n + 1] == m[target..target + n + 1];
    var k := Span(b, 0, {});
    assert forall i | target <= i <= target + n :: m1[i] == b[i - target];
    if k <= n {
      EndIs(m1, target, target + k);
    } else {
      assert b[n] != 0 && m1[target + n] == b[n] == m[target + n];
      assert m0[stop] == 0 && !(target <= stop <= target + n);
      EndAtMost(m1, target, stop);
      EndAtLeast(m1, target, target + n);
    }
  }

  lemma EndAtMost(m: seq<byte>, p: nat, stop: nat)
    requires p <= stop < |m| && m[stop] == 0
    ensures End(m, p) <= stop
  {
  }

  lemma EndAtLeast(m: seq<byte>, p: nat, e: nat)
    requires p <= e < |m| && forall i | p <= i <= e :: m[i] != 0
    ensures e < End(m, p)
  {
  }

  lemma CopiedBack(m: seq<byte>, m0: seq<byte>, m1: seq<byte>, path: nat, backup: nat, target: nat, stop: nat)
    requires IsString(m, path) && Layout(|m|, path, backup, target, |Str(m, path)|)
    requires Ends(m, path, backup, target, stop)
    requires Copied(m, m0, backup, path, |Str(m, path)| + 1)
    requires Finished(m0, m1, Str(m, path), backup, target)
    ensures IsString(m1, target) && path + |Str(m1, target)| <= |m1| == |m|
    ensures PathReversed(m, CopyUp(m1, path, target, |Str(m1, target)|), path, backup, target, stop)
  {
    hide Pieces, Normalised, ResultBlock, Span, CopyUp, Block;
    ResultLength(m, m0, m1, path, backup, target, stop);
    var n, size, b := |Str(m, path)|, |Str(m1, target)|, Block(m, path, target);
    var k := |UpToNul(b)|;
    CopyUpPrefix(m1, path, target, size, if size <= n then size else n + 1);
    var m' := CopyUp(m1, path, target, size);
    forall i | path <= i < path + k ensures m'[i] == b[i - path] {
      assert m1[target + i - path] == m1[target..target + n + 1][i - path];
    }
  }

  method CopyBack(s: StringMemory, ghost before: seq<byte>, ghost m0: seq<byte>, path: nat, ghost backup: nat,
                  target: nat, ghost stop: nat)
    requires IsString(before, path) && Layout(|before|, path, backup, target, |Str(before, path)|)
    requires Ends(before, path, backup, target, stop)
    requires Copied(before, m0, backup, path, |Str(before, path)| + 1)
    requires Finished(m0, s.mem[..], Str(before, path), backup, target)
    modifies s.mem
    ensures PathReversed(before, s.mem[..], path, backup, target, stop)
  {
    hide Finished, Ends, PathReversed, Copied, CopyUp;
    CopiedBack(before, m0, s.mem[..], path, backup, target, stop);
    var size := s.Strlen(target);
    s.Memcpy(path, target, size);
  }

  /** The next component, at the end of the loop's body. */
  method NextComponent(s: StringMemory, ghost c: Site, ghost done: seq<seq<byte>>) returns (next: nat)
    requires Between(c, s.mem[..], s.holder, done)
    modifies s, s.mem
    ensures Looping(c, s.mem[..], s.holder, next, done, U32(Left(c, done)))
  {
    hide Looping, Between, NextToken;
    LoopTokenised(c, s.mem[..], s.holder, done);
    assert DelimSet([SLASH]) == SLASHES;
    next := s.Strtok(NULL, [SLASH]);
  }

  /** One round of the loop. */
  method Round(s: StringMemory, ghost c: Site, ghost done: seq<seq<byte>>, index: nat, current: nat, target: nat)
    returns (stop: bool, next: nat, left: nat, ghost done': seq<seq<byte>>)
    requires target == c.target && Looping(c, s.mem[..], s.holder, current, done, index) && current != NULL
    modifies s, s.mem
    ensures stop ==> Stopped(c, s.mem[..])
    ensures !stop ==> Looping(c, s.mem[..], s.holder, next, done', left)
    ensures |done| < |done'|
  {
    hide Looping, Stopped, Between, WordPlaced, Left;
    ghost var m, holder := s.mem[..], s.holder;
    LoopHasRoom(c, m, holder, current, done, index);
    done' := done + [Str(m, current)];
    next := NULL;
    stop, left := PlaceWord(s, target, index, current, Left(c, done));
    LoopStep(c, m, s.mem[..], holder, current, done, index, stop);
    if !stop {
      next := NextComponent(s, c, done');
    }
  }

  /** The loop, from the state in which it starts. */
  method Rounds(s: StringMemory, ghost c: Site, ghost text: seq<byte>, index0: nat, current0: nat, target: nat)
    requires c == SiteOf(c.m0, text, c.backup, target) && Looping(c, s.mem[..], s.holder, current0, [], index0)
    modifies s, s.mem
    ensures Finished(c.m0, s.mem[..], text, c.backup, target)
  {
    var stop, current, index := false, current0, index0;
    ghost var done := [];
    while !stop && current != NULL
      invariant !stop ==> Looping(c, s.mem[..], s.holder, current, done, index)
      invariant stop ==> Stopped(c, s.mem[..])
      decreases !stop, |c.pieces| - |done|
    {
      stop, current, index, done := Round(s, c, done, index, current, target);
    }
    if stop {
      LoopStopped(c, s.mem[..], text);
    } else {
      LoopDone(c, s.mem[..], text, s.holder, done, index);
    }
  }

  /** The copy, and the first component. */
  method Begin(s: StringMemory, path: nat, backup: nat, ghost target: nat)
    returns (index: nat, current: nat, ghost m0: seq<byte>)
    requires IsString(s.mem[..], path)
    requires Layout(s.mem.Length, path, backup, target, |Str(s.mem[..], path)|)
    modifies s, s.mem
    ensures var text := old(Str(s.mem[..], path));
      && Copied(old(s.mem[..]), m0, backup, path, |text| + 1)
      && Looping(SiteOf(m0, text, backup, target), s.mem[..], s.holder, current, [], index)
  {
    hide Looping, Pieces, Copied, NextToken;
    ghost var before := s.mem[..];
    var len: int := s.Strlen(path);
    s.Memcpy(backup, path, len + 1);
    m0 := s.mem[..];
    index := U32(len - 1);
    LoopStarts(before, m0, path, backup, target);
    assert DelimSet([SLASH]) == SLASHES;
    current := s.Strtok(backup, [SLASH]);
  }

  /** `reverse_path`. The two blocks that it takes from the heap are parameters. They may hold
      anything, as the heap clears no block, but a NUL must end what the result block comes to. */
  method ReversePath(s: StringMemory, path: nat, backup: nat, target: nat, ghost stop: nat)
    requires IsString(s.mem[..], path)
    requires Layout(s.mem.Length, path, backup, target, |Str(s.mem[..], path)|)
    requires Ends(s.mem[..], path, backup, target, stop)
    modifies s, s.mem
    ensures PathReversed(old(s.mem[..]), s.mem[..], path, backup, target, stop)
  {
    hide Looping, Finished, PathReversed, Ends, Pieces, Copied, Span;
    ghost var before := s.mem[..];
    var index, current;
    ghost var m0;
    index, current, m0 := Begin(s, path, backup, target);
    Rounds(s, SiteOf(m0, Str(before, path), backup, target), Str(before, path), index, current, target);
    CopyBack(s, before, m0, path, backup, target, stop);
  }
}
