/** What `reverse_path` and `iso_clean_path_reverse` (core/drv/FS/iso9660.c) compute, on the
    bytes of a path. */
module Paths {
  import opened CStrings

  const SLASHES: set<byte> := {SLASH}

  function Join(parts: seq<seq<byte>>): seq<byte>
    requires parts != []
  {
    if |parts| == 1 then parts[0] else parts[0] + [SLASH] + Join(parts[1..])
  }

  function Reversed(parts: seq<seq<byte>>): (r: seq<seq<byte>>)
    ensures |r| == |parts|
  {
    if parts == [] then [] else Reversed(parts[1..]) + [parts[0]]
  }

  predicate Plain(p: seq<byte>) { SLASH !in p }

  /** No leading, trailing or doubled slash, and not empty. */
  predicate Normalised(path: seq<byte>) {
    forall i | 0 <= i < |Split(path, SLASHES)| :: Split(path, SLASHES)[i] != []
  }

  /** No slash follows another. */
  predicate NoDoubledSlash(path: seq<byte>) {
    forall i | 0 <= i < |path| - 1 :: path[i] != SLASH || path[i + 1] != SLASH
  }

  predicate NoneEmpty(parts: seq<seq<byte>>) { forall i | 0 <= i < |parts| :: parts[i] != [] }

  /** Nothing is empty behind the first piece exactly without a trailing or a doubled slash. */
  lemma {:induction false} LaterPieces(path: seq<byte>)
    ensures var parts := Split(path, SLASHES);
      && (parts[0] != [] <==> path != [] && path[0] != SLASH)
      && (NoneEmpty(parts[1..]) <==> (path == [] || path[|path| - 1] != SLASH) && NoDoubledSlash(path))
  {
    var parts := Split(path, SLASHES);
    if path == [] {
      assert parts[1..] == [];
    } else {
      var rest := Split(path[1..], SLASHES);
      LaterPieces(path[1..]);
      DoubledInTail(path);
      NoneEmptyCons(rest);
      if path[0] == SLASH {
        assert parts[1..] == rest;
      } else {
        assert parts[1..] == rest[1..];
      }
      hide NoneEmpty, NoDoubledSlash, Split;
      assert |path| > 1 ==> path[1..][0] == path[1] && path[1..][|path[1..]| - 1] == path[|path| - 1];
    }
  }

  lemma NoneEmptyCons(parts: seq<seq<byte>>)
    requires parts != []
    ensures NoneEmpty(parts) <==> parts[0] != [] && NoneEmpty(parts[1..])
  {
    assert forall i | 0 < i < |parts| :: parts[i] == parts[1..][i - 1];
  }

  lemma DoubledInTail(path: seq<byte>)
    requires path != []
    ensures NoDoubledSlash(path) <==>
      (|path| > 1 ==> path[0] != SLASH || path[1] != SLASH) && NoDoubledSlash(path[1..])
  {
    var t := path[1..];
    if NoDoubledSlash(path) {
      forall i | 0 <= i < |t| - 1 ensures t[i] != SLASH || t[i + 1] != SLASH {
        assert path[i + 1] != SLASH || path[i + 1 + 1] != SLASH;
      }
    }
    if (|path| > 1 ==> path[0] != SLASH || path[1] != SLASH) && NoDoubledSlash(t) {
      forall i | 0 <= i < |path| - 1 ensures path[i] != SLASH || path[i + 1] != SLASH {
        assert i > 0 ==> t[i - 1] != SLASH || t[i - 1 + 1] != SLASH;
      }
    }
  }

  /** A path is normalised when it is not empty and has no leading, trailing or doubled slash. */
  lemma NormalisedIff(path: seq<byte>)
    ensures Normalised(path) <==>
      && path != [] && path[0] != SLASH && path[|path| - 1] != SLASH
      && forall i | 0 <= i < |path| - 1 :: path[i] != SLASH || path[i + 1] != SLASH
  {
    LaterPieces(path);
    NoneEmptyCons(Split(path, SLASHES));
  }

  /** The components in reverse order, for a normalised path; any other path as it is. */
  function ReversedPath(path: seq<byte>): seq<byte> {
    if Normalised(path) then Join(Reversed(Split(path, SLASHES))) else path
  }

  lemma {:induction false} ReversedAt(parts: seq<seq<byte>>, i: nat)
    requires i < |parts|
    ensures Reversed(parts)[i] == parts[|parts| - 1 - i]
  {
    if i == |parts| - 1 {
    } else {
      ReversedAt(parts[1..], i);
    }
  }

  lemma ReversedTwice(parts: seq<seq<byte>>)
    ensures Reversed(Reversed(parts)) == parts
  {
    forall i | 0 <= i < |parts| ensures Reversed(Reversed(parts))[i] == parts[i] {
      ReversedAt(Reversed(parts), i);
      ReversedAt(parts, |parts| - 1 - i);
    }
  }

  lemma {:induction false} SplitIsPlain(path: seq<byte>)
    ensures forall i | 0 <= i < |Split(path, SLASHES)| :: Plain(Split(path, SLASHES)[i])
  {
    if path == [] {
    } else {
      SplitIsPlain(path[1..]);
      var rest := Split(path[1..], SLASHES);
      if path[0] != SLASH {
        assert Plain(rest[0]);
      }
    }
  }

  lemma {:induction false} JoinOfSplit(path: seq<byte>)
    ensures Join(Split(path, SLASHES)) == path
  {
    if path == [] {
    } else {
      JoinOfSplit(path[1..]);
      var rest := Split(path[1..], SLASHES);
      if path[0] == SLASH {
        assert ([[]] + rest)[1..] == rest;
        assert path == [] + [SLASH] + path[1..];
      } else {
        assert path == [path[0]] + path[1..];
        JoinPrepend(path[0], rest);
      }
    }
  }

  lemma JoinCons(p: seq<byte>, rest: seq<seq<byte>>)
    ensures Join([p] + rest) == if rest == [] then p else p + ([SLASH] + Join(rest))
  {
    assert ([p] + rest)[1..] == rest;
    if rest != [] {
      assert p + [SLASH] + Join(rest) == p + ([SLASH] + Join(rest));
    }
  }

  /** A byte more in the first part is a byte more in front. */
  lemma JoinPrepend(b: byte, parts: seq<seq<byte>>)
    requires parts != []
    ensures Join([[b] + parts[0]] + parts[1..]) == [b] + Join(parts)
  {
    hide Join;
    assert parts == [parts[0]] + parts[1..];
    JoinCons(parts[0], parts[1..]);
    JoinCons([b] + parts[0], parts[1..]);
    if |parts| > 1 {
      var rest := [SLASH] + Join(parts[1..]);
      assert ([b] + parts[0]) + rest == [b] + (parts[0] + rest);
    }
  }

  lemma {:induction false} SplitOfJoin(parts: seq<seq<byte>>)
    requires parts != [] && forall i | 0 <= i < |parts| :: Plain(parts[i])
    ensures Split(Join(parts), SLASHES) == parts
  {
    var p := parts[0];
    assert forall i | 0 <= i < |p| :: p[i] !in SLASHES by {
      assert Plain(p);
    }
    if |parts| == 1 {
      SplitNothing(p, SLASHES);
    } else {
      SplitOfJoin(parts[1..]);
      SplitAtFirst(p, SLASH, Join(parts[1..]), SLASHES);
      assert parts == [p] + parts[1..];
    }
  }

  /** Reversing is its own inverse, on every path. */
  lemma ReverseTwiceIsIdentity(path: seq<byte>)
    ensures ReversedPath(ReversedPath(path)) == path
    ensures Normalised(ReversedPath(path)) == Normalised(path)
  {
    var parts := Split(path, SLASHES);
    if Normalised(path) {
      SplitIsPlain(path);
      forall i | 0 <= i < |parts| ensures Plain(Reversed(parts)[i]) && Reversed(parts)[i] != [] {
        ReversedAt(parts, i);
      }
      SplitOfJoin(Reversed(parts));
      ReversedTwice(parts);
      JoinOfSplit(path);
    }
  }

  /** Reversing a path turns its components round. */
  lemma ReversedComponents(path: seq<byte>, i: nat)
    requires Normalised(path) && i < |Split(path, SLASHES)|
    ensures var parts, reversed := Split(path, SLASHES), Split(ReversedPath(path), SLASHES);
      |reversed| == |parts| && reversed[i] == parts[|parts| - 1 - i]
  {
    var parts := Split(path, SLASHES);
    SplitIsPlain(path);
    forall k | 0 <= k < |parts| ensures Plain(Reversed(parts)[k]) {
      ReversedAt(parts, k);
    }
    SplitOfJoin(Reversed(parts));
    ReversedAt(parts, i);
  }

  function TotalLength(parts: seq<seq<byte>>): nat {
    if parts == [] then 0 else |parts[0]| + 1 + TotalLength(parts[1..])
  }

  lemma {:induction false} JoinLength(parts: seq<seq<byte>>)
    requires parts != []
    ensures |Join(parts)| + 1 == TotalLength(parts)
  {
    if |parts| == 1 {
      assert parts[1..] == [];
    } else {
      JoinLength(parts[1..]);
    }
  }

  lemma {:induction false} TotalLengthAppend(a: seq<seq<byte>>, p: seq<byte>)
    ensures TotalLength(a + [p]) == TotalLength(a) + |p| + 1
  {
    if a == [] {
      assert (a + [p])[1..] == [];
    } else {
      TotalLengthAppend(a[1..], p);
      assert (a + [p])[1..] == a[1..] + [p];
    }
  }

  lemma {:induction false} TotalLengthConcat(a: seq<seq<byte>>, b: seq<seq<byte>>)
    ensures TotalLength(a + b) == TotalLength(a) + TotalLength(b)
  {
    if a == [] {
      assert a + b == b;
    } else {
      TotalLengthConcat(a[1..], b);
      assert (a + b)[1..] == a[1..] + b;
    }
  }

  lemma {:induction false} ReversedLength(parts: seq<seq<byte>>)
    ensures TotalLength(Reversed(parts)) == TotalLength(parts)
  {
    if parts == [] {
    } else {
      ReversedLength(parts[1..]);
      TotalLengthAppend(Reversed(parts[1..]), parts[0]);
    }
  }

  /** Reversing keeps the length. */
  lemma ReversedPathLength(path: seq<byte>)
    ensures |ReversedPath(path)| == |path|
  {
    var parts := Split(path, SLASHES);
    if Normalised(path) {
      JoinLength(Reversed(parts));
      ReversedLength(parts);
      JoinLength(parts);
      JoinOfSplit(path);
    }
  }

  /** Dropping empty pieces loses their separators, and nothing when there are none. */
  lemma {:induction false} NonEmptyLength(parts: seq<seq<byte>>)
    ensures TotalLength(NonEmpty(parts)) <= TotalLength(parts)
    ensures TotalLength(NonEmpty(parts)) == TotalLength(parts) <==> forall i | 0 <= i < |parts| :: parts[i] != []
    ensures (forall i | 0 <= i < |parts| :: parts[i] != []) ==> NonEmpty(parts) == parts
    ensures forall i | 0 <= i < |NonEmpty(parts)| :: NonEmpty(parts)[i] != []
  {
    if parts == [] {
    } else {
      NonEmptyLength(parts[1..]);
      assert parts == [parts[0]] + parts[1..];
      if parts[0] != [] {
        TotalLengthConcat([parts[0]], NonEmpty(parts[1..]));
      } else {
        assert [] + NonEmpty(parts[1..]) == NonEmpty(parts[1..]);
      }
    }
  }

  /** The pieces and their separators fill the path exactly when it is normalised. */
  lemma PiecesFillPath(path: seq<byte>)
    ensures TotalLength(Pieces(path, SLASHES)) <= |path| + 1
    ensures TotalLength(Pieces(path, SLASHES)) == |path| + 1 <==> Normalised(path)
    ensures Normalised(path) ==> Pieces(path, SLASHES) == Split(path, SLASHES)
    ensures forall i | 0 <= i < |Pieces(path, SLASHES)| :: Pieces(path, SLASHES)[i] != []
  {
    NonEmptyLength(Split(path, SLASHES));
    JoinOfSplit(path);
    JoinLength(Split(path, SLASHES));
  }

  /** What the loop of `reverse_path` has written, right-aligned, after these components. */
  function Written(done: seq<seq<byte>>): (r: seq<byte>)
    ensures |r| == TotalLength(done)
  {
    if done == [] then []
    else
      var init := done[..|done| - 1];
      TotalLengthAppend(init, done[|done| - 1]);
      assert done == init + [done[|done| - 1]];
      [SLASH] + done[|done| - 1] + Written(init)
  }

  lemma WrittenAppend(done: seq<seq<byte>>, p: seq<byte>)
    ensures Written(done + [p]) == [SLASH] + p + Written(done)
  {
    assert (done + [p])[..|done|] == done;
  }

  lemma {:induction false} ReversedAppend(a: seq<seq<byte>>, p: seq<byte>)
    ensures Reversed(a + [p]) == [p] + Reversed(a)
  {
    if a == [] {
      assert (a + [p])[1..] == [];
    } else {
      ReversedAppend(a[1..], p);
      assert (a + [p])[1..] == a[1..] + [p];
    }
  }

  lemma {:induction false} WrittenIsJoin(done: seq<seq<byte>>)
    requires done != []
    ensures Written(done) == [SLASH] + Join(Reversed(done))
  {
    var n := |done| - 1;
    var init := done[..n];
    assert done == init + [done[n]];
    ReversedAppend(init, done[n]);
    if init != [] {
      WrittenIsJoin(init);
      assert Reversed(done)[1..] == Reversed(init);
      assert Join(Reversed(done)) == done[n] + [SLASH] + Join(Reversed(init));
      assert done[n] + ([SLASH] + Join(Reversed(init))) == done[n] + [SLASH] + Join(Reversed(init));
    } else {
      assert Reversed(done) == [done[n]];
      assert Written(init) == [];
      assert [SLASH] + done[n] + [] == [SLASH] + done[n];
    }
  }

  /** What the loop leaves in a result block that held `d`: the pieces right-aligned before the
      last byte, each behind a slash. The slash that falls on the first byte is not written,
      and the one before the block is not part of it. */
  function ResultBlock(d: seq<byte>, pieces: seq<seq<byte>>): (b: seq<byte>)
    requires 0 < |d| && TotalLength(pieces) <= |d|
    ensures |b| == |d| && b[|d| - 1] == d[|d| - 1]
  {
    var n, w := |d| - 1, Written(pieces);
    if w == [] then d
    else if |w| < n then d[..n - |w|] + w + d[n..]
    else d[..n + 1 - |w|] + w[1..] + d[n..]
  }

  /** Byte by byte: what was written from `lo` on, and what the block held elsewhere. */
  lemma ResultBlockAt(d: seq<byte>, pieces: seq<seq<byte>>, i: nat)
    requires 0 < |d| && TotalLength(pieces) <= |d| && i < |d|
    ensures var n, w := |d| - 1, Written(pieces);
      var lo := n - |w|;
      ResultBlock(d, pieces)[i] == if lo <= i < n && !(lo == i == 0) then w[i - lo] else d[i]
  {
    hide Written, TotalLength;
  }

  /** For a normalised path that is the reversed path and the block's own last byte. */
  lemma BlockOfNormalised(path: seq<byte>, d: seq<byte>)
    requires Normalised(path) && |d| == |path| + 1 && TotalLength(Pieces(path, SLASHES)) <= |d|
    ensures ResultBlock(d, Pieces(path, SLASHES)) == ReversedPath(path) + [d[|path|]]
  {
    hide Written, Join, Reversed, Split, Pieces;
    PiecesFillPath(path);
    assert ReversedPath(path) == Join(Reversed(Pieces(path, SLASHES)));
    WrittenIsJoin(Pieces(path, SLASHES));
    assert d[|path|..] == [d[|path|]] && d[..0] == [];
  }

  /** For any other path the block keeps its first byte. */
  lemma BlockOfOther(path: seq<byte>, d: seq<byte>)
    requires !Normalised(path) && |d| == |path| + 1 && TotalLength(Pieces(path, SLASHES)) <= |d|
    ensures ResultBlock(d, Pieces(path, SLASHES))[0] == d[0]
  {
    hide Written, Normalised, Pieces;
    PiecesFillPath(path);
  }
}
