/** 8.3 names: `FAT_convertFilenameToFATCompat` (core/drv/FS/fat.c) over the byte memory, with
    `strtok` doing the splitting. */
module FatNames {
  import opened CStrings
  import opened StringHelpers

  const DOTS: set<byte> := {DOT}

  function Min(a: nat, b: nat): nat { if a < b then a else b }

  function Spaces(n: nat): (r: seq<byte>)
    ensures |r| == n && forall i | 0 <= i < n :: r[i] == SPACE
  {
    if n == 0 then [] else [SPACE] + Spaces(n - 1)
  }

  /** The first `n` bytes of a piece, padded with spaces. */
  function Field(piece: seq<byte>, n: nat, width: nat): (r: seq<byte>)
    requires n <= |piece| && n <= width
    ensures |r| == width
  {
    piece[..n] + Spaces(width - n)
  }

  function PieceOr(pieces: seq<seq<byte>>, i: nat): seq<byte> {
    if i < |pieces| then pieces[i] else []
  }

  /** The eleven bytes for a dotted name. The length of the base is kept in one byte. */
  function Compatible(path: seq<byte>): (r: seq<byte>)
    ensures |r| == 11
  {
    var pieces := Pieces(path, DOTS);
    var base, ext := PieceOr(pieces, 0), PieceOr(pieces, 1);
    Field(base, Min(|base| % 256, 8), 8) + Field(ext, Min(|ext|, 3), 3)
  }

  /** Copies `n` bytes of a token and fills the rest of the field with spaces. */
  method FillField(s: StringMemory, token: nat, n: nat, filename: array<byte>, at: nat, width: nat,
                   ghost piece: seq<byte>)
    requires filename != s.mem && at + width <= filename.Length && n <= width && n <= |piece|
    requires token < s.mem.Length && piece == if token == NULL then [] else Str(s.mem[..], token)
    modifies filename
    ensures forall k | at <= k < at + width :: filename[k] == Field(piece, n, width)[k - at]
    ensures forall i | 0 <= i < filename.Length && !(at <= i < at + width) :: filename[i] == old(filename[i])
  {
    var i := 0;
    while i < n
      invariant 0 <= i <= n
      invariant forall k | at <= k < at + i :: filename[k] == piece[k - at]
      invariant forall k | 0 <= k < filename.Length && !(at <= k < at + i) :: filename[k] == old(filename[k])
    {
      assert s.mem[token + i] == piece[i];
      filename[at + i] := s.mem[token + i];
      i := i + 1;
    }
    var spaces := width - n;
    i := 0;
    while i < spaces
      invariant 0 <= i <= spaces
      invariant forall k | at <= k < at + n :: filename[k] == piece[k - at]
      invariant forall k | at + n <= k < at + n + i :: filename[k] == SPACE
      invariant forall k | 0 <= k < filename.Length && !(at <= k < at + n + i) :: filename[k] == old(filename[k])
    {
      filename[at + n + i] := SPACE;
      i := i + 1;
    }
    ghost var f := Field(piece, n, width);
    assert forall k | at <= k < at + width :: filename[k] == f[k - at];
  }

  /** Of the name at `p` nothing but dots may have become NUL, and nothing else has changed. */
  predicate OnlyDotsCleared(m: seq<byte>, m': seq<byte>, p: nat)
    requires p <= |m|
  {
    |m'| == |m| &&
    forall i | 0 <= i < |m| :: m'[i] == m[i] || (p <= i < End(m, p) && m[i] == DOT && m'[i] == 0)
  }

  /** What two calls of `strtok` return for a name: its first two pieces. */
  lemma TwoTokens(m: seq<byte>, p: nat)
    requires IsString(m, p)
    ensures var t := NextToken(m, p, DOTS);
      && (t.holder == NULL || IsString(t.mem, t.holder))
      && var u := NextToken(t.mem, t.holder, DOTS);
      && |u.mem| == |t.mem| == |m| && t.token < |m| && u.token < |m|
      && var pieces := Pieces(Str(m, p), DOTS);
      && (if t.token == NULL then [] else Str(t.mem, t.token)) == PieceOr(pieces, 0)
      && (if u.token == NULL then [] else Str(u.mem, u.token)) == PieceOr(pieces, 1)
      && (t.token != NULL ==> IsString(t.mem, t.token))
      && (u.token != NULL ==> IsString(u.mem, u.token))
      && OnlyDotsCleared(m, u.mem, p)
  {
    hide Span, Pieces;
    TokenMemory(m, p, DOTS);
    TokenStep(m, p, DOTS);
    var t := NextToken(m, p, DOTS);
    if t.holder != NULL {
      TokenMemory(t.mem, t.holder, DOTS);
      TokenStep(t.mem, t.holder, DOTS);
    }
  }

  /** The next piece of the name, cut or padded into its field. The length of the base is kept
      in one byte. */
  method NextField(s: StringMemory, start: nat, filename: array<byte>, at: nat, width: nat, oneByte: bool,
                   ghost t: Tokenised, ghost piece: seq<byte>)
    requires start != NULL ==> IsString(s.mem[..], start)
    requires start == NULL && s.holder != NULL ==> IsString(s.mem[..], s.holder)
    requires t == NextToken(s.mem[..], if start != NULL then start else s.holder, DOTS)
    requires t.token < |t.mem| && (t.token != NULL ==> IsString(t.mem, t.token))
    requires piece == if t.token == NULL then [] else Str(t.mem, t.token)
    requires filename != s.mem && at + width <= filename.Length
    modifies s, s.mem, filename
    ensures s.mem[..] == t.mem && s.holder == t.holder
    ensures var f := Field(piece, Min(if oneByte then |piece| % 256 else |piece|, width), width);
      forall k | at <= k < at + width :: filename[k] == f[k - at]
    ensures forall k | 0 <= k < filename.Length && !(at <= k < at + width) :: filename[k] == old(filename[k])
  {
    hide NextToken, Span;
    assert DelimSet([DOT]) == DOTS;
    var current := s.Strtok(start, [DOT]);
    var len: nat := s.Strlen(current);
    if oneByte {
      len := len % 256;
    }
    len := if len > width then width else len;
    FillField(s, current, len, filename, at, width, piece);
  }

  /** The split of a dotted name into the twelve-byte buffer. */
  method SplitName(s: StringMemory, path: nat) returns (filename: array<byte>)
    requires IsString(s.mem[..], path)
    modifies s, s.mem
    ensures fresh(filename) && filename[..] == Compatible(old(Str(s.mem[..], path))) + [0]
    ensures OnlyDotsCleared(old(s.mem[..]), s.mem[..], path)
  {
    hide NextToken, Pieces, Span, Field, OnlyDotsCleared, Compatible;
    ghost var m := s.mem[..];
    TwoTokens(m, path);
    ghost var pieces := Pieces(Str(m, path), DOTS);
    ghost var t := NextToken(m, path, DOTS);
    ghost var u := NextToken(t.mem, t.holder, DOTS);
    filename := new byte[12](_ => 0);
    NextField(s, path, filename, 0, 8, true, t, PieceOr(pieces, 0));
    NextField(s, NULL, filename, 8, 3, false, u, PieceOr(pieces, 1));
    filename[11] := 0;
    FieldsMakeName(Str(m, path), filename[..]);
  }

  lemma FieldsMakeName(path: seq<byte>, f: seq<byte>)
    requires |f| == 12 && f[11] == 0
    requires var base := PieceOr(Pieces(path, DOTS), 0);
      forall k | 0 <= k < 8 :: f[k] == Field(base, Min(|base| % 256, 8), 8)[k - 0]
    requires var ext := PieceOr(Pieces(path, DOTS), 1);
      forall k | 8 <= k < 11 :: f[k] == Field(ext, Min(|ext|, 3), 3)[k - 8]
    ensures f == Compatible(path) + [0]
  {
    hide Pieces, Field;
  }

  /** The final `memcpy` out of the local buffer. */
  method CopyOut(s: StringMemory, dummy: nat, filename: array<byte>)
    requires filename != s.mem && filename.Length == 12 && dummy + 12 <= s.mem.Length
    modifies s.mem
    ensures s.mem[dummy..dummy + 12] == filename[..]
    ensures forall i | 0 <= i < s.mem.Length && !(dummy <= i < dummy + 12) :: s.mem[i] == old(s.mem[i])
  {
    var i := 0;
    while i < 12
      invariant 0 <= i <= 12
      invariant forall k | dummy <= k < dummy + i :: s.mem[k] == filename[k - dummy]
      invariant forall k | 0 <= k < s.mem.Length && !(dummy <= k < dummy + i) :: s.mem[k] == old(s.mem[k])
    {
      s.mem[dummy + i] := filename[i];
      i := i + 1;
    }
  }

  /** `FAT_convertFilenameToFATCompat`: a name without a dot (after its first byte) is copied as
      eleven raw bytes; a dotted one is split, cut and padded, and terminated. */
  method ConvertFilename(s: StringMemory, path: nat, dummy: nat)
    requires IsString(s.mem[..], path) && IsString(s.mem[..], path + 1) && path + 11 <= s.mem.Length
    requires dummy + 12 <= s.mem.Length && (dummy + 11 <= path || path + 11 <= dummy)
    modifies s, s.mem
    ensures !old(Dotted(s.mem[..], path)) ==> Copied(old(s.mem[..]), s.mem[..], dummy, path, 11)
    ensures old(Dotted(s.mem[..], path)) ==>
      && s.mem[dummy..dummy + 12] == Compatible(old(Str(s.mem[..], path))) + [0]
      && forall i | 0 <= i < s.mem.Length && !(dummy <= i < dummy + 12) ::
           || s.mem[i] == old(s.mem[i])
           || (path <= i < old(End(s.mem[..], path)) && old(s.mem[i]) == DOT && s.mem[i] == 0)
  {
    var dotted := HasDot(s, path);
    if dotted {
      var filename := SplitName(s, path);
      CopyOut(s, dummy, filename);
    } else {
      s.Memcpy(dummy, path, 11);
    }
  }

  // ---------- What the conversion promises ----------

  lemma {:induction false} PiecesHaveNoDelimiter(s: seq<byte>, delims: set<byte>)
    ensures forall i, k | 0 <= i < |Split(s, delims)| && 0 <= k < |Split(s, delims)[i]| ::
      Split(s, delims)[i][k] !in delims
    ensures forall i | 0 <= i < |Split(s, delims)| && 0 !in s :: 0 !in Split(s, delims)[i]
    ensures forall i | 0 <= i < |Split(s, delims)| :: |Split(s, delims)[i]| <= |s|
  {
    if s == [] {
    } else {
      PiecesHaveNoDelimiter(s[1..], delims);
    }
  }

  lemma {:induction false} NonEmptyIsSubset(pieces: seq<seq<byte>>)
    ensures forall p | p in NonEmpty(pieces) :: p in pieces
  {
    if pieces == [] {
    } else {
      NonEmptyIsSubset(pieces[1..]);
    }
  }

  /** A converted name holds no dot and no NUL. */
  lemma CompatibleIsPlain(path: seq<byte>)
    requires 0 !in path
    ensures DOT !in Compatible(path) && 0 !in Compatible(path)
  {
    var pieces := Pieces(path, DOTS);
    PiecesHaveNoDelimiter(path, DOTS);
    NonEmptyIsSubset(Split(path, DOTS));
    var base, ext := PieceOr(pieces, 0), PieceOr(pieces, 1);
    assert base == [] || base in Split(path, DOTS);
    assert ext == [] || ext in Split(path, DOTS);
    assert DOT !in base && DOT !in ext && 0 !in base && 0 !in ext;
  }

  /** Converting a converted name again copies it unchanged. */
  lemma ConvertingTwiceChangesNothing(path: seq<byte>, m: seq<byte>, p: nat)
    requires 0 !in path && p + 12 <= |m| && 0 < p
    requires m[p..p + 12] == Compatible(path) + [0]
    ensures IsString(m, p) && Str(m, p) == Compatible(path)
    ensures IsString(m, p + 1) && !Dotted(m, p)
    ensures m[p..p + 11] == Compatible(path)
  {
    CompatibleIsPlain(path);
    var name := Compatible(path);
    forall i | p <= i < p + 12 ensures m[i] == (name + [0])[i - p] {
      assert m[p..p + 12][i - p] == m[i];
    }
    assert forall i | p <= i < p + 11 :: m[i] == name[i - p] && name[i - p] in name;
    EndIs(m, p, p + 11);
    EndIs(m, p + 1, p + 11);
    assert Str(m, p) == name;
    assert Str(m, p + 1) == name[1..];
  }

  /** A name in 8.3 form: base, dot, extension, no spaces. */
  predicate ShortName(base: seq<byte>, ext: seq<byte>) {
    && 1 <= |base| <= 8 && 1 <= |ext| <= 3
    && DOT !in base && DOT !in ext && SPACE !in base && SPACE !in ext
  }

  /** The bytes of a field without its padding. */
  function Trimmed(field: seq<byte>): seq<byte> {
    if field == [] || field[|field| - 1] != SPACE then field else Trimmed(field[..|field| - 1])
  }

  lemma {:induction false} TrimField(piece: seq<byte>, n: nat)
    requires SPACE !in piece
    ensures Trimmed(piece + Spaces(n)) == piece
  {
    if n == 0 {
      assert piece + Spaces(0) == piece;
      if piece != [] {
        assert piece[|piece| - 1] in piece;
      }
    } else {
      var f := piece + Spaces(n);
      assert f[|f| - 1] == SPACE;
      assert f[..|f| - 1] == piece + Spaces(n - 1);
      TrimField(piece, n - 1);
    }
  }

  /** The eleven bytes, one by one, for a base, an extension that may be empty, and anything behind a
      second dot: the base cut or padded, but by its length modulo 256, and the extension cut or
      padded. What follows the second dot is lost. */
  lemma CompatibleBytes(base: seq<byte>, ext: seq<byte>, tail: seq<byte>)
    requires base != [] && DOT !in base && DOT !in ext
    requires tail == [] || (ext != [] && tail[0] == DOT)
    ensures var f := Compatible(base + [DOT] + ext + tail);
      && (forall i | 0 <= i < 8 :: f[i] == if i < |base| % 256 then base[i] else SPACE)
      && (forall i | 0 <= i < 3 :: f[8 + i] == if i < |ext| then ext[i] else SPACE)
  {
    FirstTwoPieces(base, ext, tail);
    hide Pieces, PieceOr;
  }

  lemma FirstTwoPieces(base: seq<byte>, ext: seq<byte>, tail: seq<byte>)
    requires base != [] && DOT !in base && DOT !in ext
    requires tail == [] || (ext != [] && tail[0] == DOT)
    ensures var pieces := Pieces(base + [DOT] + ext + tail, DOTS);
      PieceOr(pieces, 0) == base && PieceOr(pieces, 1) == ext
  {
    hide Pieces;
    assert base + [DOT] + ext + tail == base + [DOT] + (ext + tail);
    FirstOfPieces(base, DOT, ext + tail, DOTS);
    if ext == [] {
      assert ext + tail == [];
      NoPieces();
    } else if tail == [] {
      assert ext + tail == ext;
      OnePiece(ext, DOTS);
    } else {
      assert ext + tail == ext + [DOT] + tail[1..];
      FirstOfPieces(ext, DOT, tail[1..], DOTS);
    }
  }

  lemma NoPieces()
    ensures Pieces([], DOTS) == []
  {
    assert Split([], DOTS) == [[]] + [];
    NonEmptyCons([], []);
  }

  /** The base is cut or padded to eight exactly when its length, kept in one byte, still says
      whether it is shorter than eight, or when what it loses is spaces anyway. */
  lemma BaseIsCutOrPadded(base: seq<byte>, ext: seq<byte>, tail: seq<byte>)
    requires base != [] && DOT !in base && DOT !in ext
    requires tail == [] || (ext != [] && tail[0] == DOT)
    ensures (forall i | 0 <= i < 8 ::
              Compatible(base + [DOT] + ext + tail)[i] == if i < |base| then base[i] else SPACE)
      <==> |base| < 256 || |base| % 256 >= 8 || forall i | |base| % 256 <= i < 8 :: base[i] == SPACE
  {
    CompatibleBytes(base, ext, tail);
    hide Compatible;
    var f := Compatible(base + [DOT] + ext + tail);
    if |base| >= 256 && |base| % 256 < 8 {
      assert forall i | |base| % 256 <= i < 8 :: f[i] == SPACE;
    }
  }

  /** On valid 8.3 names the conversion can be undone, so no two of them collide. */
  lemma ShortNameRoundTrip(base: seq<byte>, ext: seq<byte>)
    requires ShortName(base, ext)
    ensures var f := Compatible(base + [DOT] + ext);
      Trimmed(f[..8]) == base && Trimmed(f[8..]) == ext
  {
    FirstOfPieces(base, DOT, ext, DOTS);
    OnePiece(ext, DOTS);
    var f := Compatible(base + [DOT] + ext);
    assert Pieces(base + [DOT] + ext, DOTS) == [base, ext];
    assert base[..|base|] == base && ext[..|ext|] == ext;
    assert f[..8] == base + Spaces(8 - |base|);
    assert f[8..] == ext + Spaces(3 - |ext|);
    TrimField(base, 8 - |base|);
    TrimField(ext, 3 - |ext|);
  }
}
