/** C strings in one byte memory, and the tokeniser of core/util/util.c: `strtok`, `strsep`,
    `strpbrk` and `__strxspn`, with the static cursor `holder`. */
module CStrings {

  type byte = b: nat | b < 256

  const NULL := 0 // the null pointer; no string starts at address 0
  const SLASH: byte := 47
  const DOT: byte := 46
  const SPACE: byte := 32

  /** Unsigned 32-bit arithmetic wraps. */
  function U32(x: int): nat { x % 0x1_0000_0000 }

  /** A 32-bit index added to a pointer. */
  function At(p: nat, index: nat): nat { U32(p + index) }

  lemma Wrap(x: int)
    requires -0x1_0000_0000 <= x < 0x2_0000_0000
    ensures U32(x) == if x < 0 then x + 0x1_0000_0000 else if x < 0x1_0000_0000 then x else x - 0x1_0000_0000
  {
  }

  /** A negative index reaches the byte it means. */
  lemma WrapAt(p: nat, index: int)
    requires -0x1_0000_0000 <= index && 0 <= p + index < 0x1_0000_0000
    ensures At(p, U32(index)) == p + index
  {
  }

  /** The first position from `p` on that holds NUL or a byte of `stop`. */
  function Span(m: seq<byte>, p: nat, stop: set<byte>): (e: nat)
    requires p <= |m|
    ensures p <= e <= |m|
    ensures forall i | p <= i < e :: m[i] != 0 && m[i] !in stop
    ensures e < |m| ==> m[e] == 0 || m[e] in stop
    decreases |m| - p
  {
    if p == |m| || m[p] == 0 || m[p] in stop then p else Span(m, p + 1, stop)
  }

  function End(m: seq<byte>, p: nat): nat
    requires p <= |m|
  {
    Span(m, p, {})
  }

  predicate IsString(m: seq<byte>, p: nat) { 0 < p <= |m| && End(m, p) < |m| }

  /** The bytes of the string at `p`, without the terminator. */
  function Str(m: seq<byte>, p: nat): seq<byte>
    requires p <= |m|
  {
    m[p..End(m, p)]
  }

  /** The bytes of a fixed-size field up to a NUL, if it holds one. */
  function UpToNul(s: seq<byte>): seq<byte> { s[..Span(s, 0, {})] }

  /** Only the bytes from `p` through the terminator matter. */
  lemma EndIs(m: seq<byte>, p: nat, e: nat)
    requires p <= e < |m| && m[e] == 0 && forall i | p <= i < e :: m[i] != 0
    ensures End(m, p) == e
  {
  }

  lemma StrFrame(m: seq<byte>, m': seq<byte>, p: nat)
    requires IsString(m, p) && |m'| == |m|
    requires forall i | p <= i <= End(m, p) :: m'[i] == m[i]
    ensures IsString(m', p) && End(m', p) == End(m, p) && Str(m', p) == Str(m, p)
  {
    EndIs(m', p, End(m, p));
  }

  /** `n` bytes from `src` now also stand at `dst`. */
  ghost predicate Copied(m: seq<byte>, m': seq<byte>, dst: nat, src: nat, n: nat) {
    && |m'| == |m| && dst + n <= |m| && src + n <= |m|
    && (forall i | dst <= i < dst + n :: m'[i] == m[src + i - dst])
    && (forall i | 0 <= i < |m| && !(dst <= i < dst + n) :: m'[i] == m[i])
  }

  /** What copying `n` bytes one after the other leaves, also where the ranges overlap. */
  function CopyUp(m: seq<byte>, dst: nat, src: nat, n: nat): (r: seq<byte>)
    requires dst + n <= |m| && src + n <= |m|
    ensures |r| == |m|
  {
    if n == 0 then m
    else
      var r := CopyUp(m, dst, src, n - 1);
      r[dst + n - 1 := r[src + n - 1]]
  }

  /** As many bytes as the two ranges are apart arrive as they were. */
  lemma {:induction false} CopyUpPrefix(m: seq<byte>, dst: nat, src: nat, n: nat, k: nat)
    requires dst + n <= |m| && src + n <= |m| && k <= n
    requires dst + k <= src || src + k <= dst
    ensures forall i | dst <= i < dst + k :: CopyUp(m, dst, src, n)[i] == m[src + i - dst]
    ensures forall i | 0 <= i < |m| && !(dst <= i < dst + n) :: CopyUp(m, dst, src, n)[i] == m[i]
  {
    if n == 0 {
    } else {
      CopyUpPrefix(m, dst, src, n - 1, if k == n then k - 1 else k);
    }
  }

  /** Copying downwards delivers every byte as it was. */
  lemma {:induction false} CopyDown(m: seq<byte>, dst: nat, src: nat, n: nat)
    requires dst <= src && src + n <= |m|
    ensures forall i | dst <= i < dst + n :: CopyUp(m, dst, src, n)[i] == m[src + i - dst]
    ensures forall i | 0 <= i < |m| && !(dst <= i < dst + n) :: CopyUp(m, dst, src, n)[i] == m[i]
  {
    if n == 0 {
    } else {
      CopyDown(m, dst, src, n - 1);
    }
  }

  /** Copying upwards repeats what lies between the two addresses, where they are closer than `n`. */
  lemma {:induction false} CopyRepeats(m: seq<byte>, dst: nat, src: nat, n: nat, i: nat)
    requires src < dst <= i < dst + n <= |m|
    ensures CopyUp(m, dst, src, n)[i] == CopyUp(m, dst, src, n)[i - (dst - src)]
    ensures forall k | 0 <= k < |m| && !(dst <= k < dst + n) :: CopyUp(m, dst, src, n)[k] == m[k]
  {
    if n == 1 {
    } else {
      CopyRepeats(m, dst, src, n - 1, if i == dst + n - 1 then i - 1 else i);
    }
  }

  // ---------- Splitting ----------

  /** All pieces between delimiters, empty ones included. */
  function Split(s: seq<byte>, delims: set<byte>): (r: seq<seq<byte>>)
    ensures r != []
  {
    if s == [] then [[]]
    else if s[0] in delims then [[]] + Split(s[1..], delims)
    else
      var rest := Split(s[1..], delims);
      [[s[0]] + rest[0]] + rest[1..]
  }

  function NonEmpty(pieces: seq<seq<byte>>): seq<seq<byte>> {
    if pieces == [] then []
    else (if pieces[0] == [] then [] else [pieces[0]]) + NonEmpty(pieces[1..])
  }

  lemma NonEmptyCons(p: seq<byte>, rest: seq<seq<byte>>)
    ensures NonEmpty([p] + rest) == (if p == [] then [] else [p]) + NonEmpty(rest)
  {
    assert ([p] + rest)[1..] == rest;
  }

  /** What a tokeniser is for: the non-empty pieces, in order. */
  function Pieces(s: seq<byte>, delims: set<byte>): seq<seq<byte>> {
    NonEmpty(Split(s, delims))
  }

  lemma {:induction false} SplitAtFirst(a: seq<byte>, d: byte, b: seq<byte>, delims: set<byte>)
    requires d in delims && forall i | 0 <= i < |a| :: a[i] !in delims
    ensures Split(a + [d] + b, delims) == [a] + Split(b, delims)
  {
    var s := a + [d] + b;
    if a == [] {
      assert s[1..] == b;
    } else {
      assert s[1..] == a[1..] + [d] + b;
      SplitAtFirst(a[1..], d, b, delims);
      assert a == [a[0]] + a[1..] && ([a[1..]] + Split(b, delims))[1..] == Split(b, delims);
    }
  }

  lemma {:induction false} SplitNothing(a: seq<byte>, delims: set<byte>)
    requires forall i | 0 <= i < |a| :: a[i] !in delims
    ensures Split(a, delims) == [a]
  {
    if a == [] {
    } else {
      SplitNothing(a[1..], delims);
      assert a == [a[0]] + a[1..];
    }
  }

  lemma OnePiece(p: seq<byte>, delims: set<byte>)
    requires p != [] && forall i | 0 <= i < |p| :: p[i] !in delims
    ensures Pieces(p, delims) == [p]
  {
    SplitNothing(p, delims);
    NonEmptyCons(p, []);
    assert [p] + [] == [p];
  }

  lemma FirstOfPieces(p: seq<byte>, d: byte, rest: seq<byte>, delims: set<byte>)
    requires p != [] && d in delims && forall i | 0 <= i < |p| :: p[i] !in delims
    ensures Pieces(p + [d] + rest, delims) == [p] + Pieces(rest, delims)
  {
    SplitAtFirst(p, d, rest, delims);
    NonEmptyCons(p, Split(rest, delims));
  }

  // ---------- One call of strtok ----------

  /** Memory and cursor after a call, and the token it returned. */
  datatype Tokenised = Tokenised(mem: seq<byte>, holder: nat, token: nat)

  /** `strtok` from cursor `h`: every delimiter it passes becomes NUL. */
  function NextToken(m: seq<byte>, h: nat, delims: set<byte>): (r: Tokenised)
    requires h == NULL || IsString(m, h)
    requires 0 !in delims
    decreases |m| - h
  {
    if h == NULL || m[h] == 0 then Tokenised(m, NULL, NULL)
    else if m[h] in delims then
      EndIs(m[h := 0], h + 1, End(m, h));
      NextToken(m[h := 0], h + 1, delims)
    else
      SpanInString(m, h, delims);
      var e := Span(m, h, delims);
      if m[e] == 0 then Tokenised(m, NULL, h) else Tokenised(m[e := 0], e + 1, h)
  }

  /** The pieces still ahead of the cursor. */
  function Ahead(m: seq<byte>, h: nat, delims: set<byte>): seq<seq<byte>>
    requires h <= |m|
  {
    if h == NULL then [] else Pieces(Str(m, h), delims)
  }

  /** Cutting a string at one of its bytes. */
  lemma Cut(m: seq<byte>, h: nat, e: nat)
    requires IsString(m, h) && h <= e < End(m, h)
    ensures End(m[e := 0], h) == e && Str(m[e := 0], h) == m[h..e]
    ensures IsString(m[e := 0], e + 1) && Str(m[e := 0], e + 1) == Str(m, e + 1)
  {
    EndIs(m[e := 0], h, e);
    EndIs(m, e + 1, End(m, h));
    StrFrame(m, m[e := 0], e + 1);
  }

  /** The token and the cursor that a call leaves lie in the string, the cursor behind the token. */
  ghost predicate InPlace(m: seq<byte>, h: nat, t: Tokenised)
    requires h <= |m|
  {
    && |t.mem| == |m|
    && (t.token == NULL ==> t.holder == NULL)
    && (t.token != NULL ==> h <= t.token < |m| && t.token < End(t.mem, t.token) <= End(m, h))
    && (t.holder != NULL ==> h < t.holder && IsString(t.mem, t.holder) && End(t.mem, t.holder) == End(m, h))
    && (t.holder != NULL ==> t.token != NULL && End(t.mem, t.token) + 1 == t.holder)
  }

  /** Where a call leaves the token and the cursor. */
  lemma {:induction false} TokenPlaces(m: seq<byte>, h: nat, delims: set<byte>)
    requires IsString(m, h) && 0 !in delims
    ensures InPlace(m, h, NextToken(m, h, delims))
    decreases |m| - h
  {
    if m[h] == 0 {
    } else if m[h] in delims {
      EndIs(m[h := 0], h + 1, End(m, h));
      TokenPlaces(m[h := 0], h + 1, delims);
    } else {
      var e := Span(m, h, delims);
      SpanInString(m, h, delims);
      if m[e] == 0 {
        EndIs(m, h, e);
      } else {
        Cut(m, h, e);
        EndIs(m[e := 0], e + 1, End(m, h));
      }
    }
  }

  /** A call stays inside the string, and turns into NUL exactly the delimiters it passes. */
  lemma {:induction false} TokenMemory(m: seq<byte>, h: nat, delims: set<byte>)
    requires IsString(m, h) && 0 !in delims
    ensures var t := NextToken(m, h, delims);
      && InPlace(m, h, t)
      && forall i | 0 <= i < |m| ::
           t.mem[i] == if h <= i < (if t.holder == NULL then End(m, h) else t.holder) && m[i] in delims then 0 else m[i]
    decreases |m| - h
  {
    TokenPlaces(m, h, delims);
    if m[h] == 0 {
    } else if m[h] in delims {
      EndIs(m[h := 0], h + 1, End(m, h));
      TokenMemory(m[h := 0], h + 1, delims);
    } else {
      TokenAtPiece(m, h, delims);
      hide NextToken, InPlace;
    }
  }

  lemma FirstPiece(m: seq<byte>, h: nat, delims: set<byte>)
    requires IsString(m, h) && 0 !in delims && m[h] != 0 && m[h] !in delims
    ensures var e := Span(m, h, delims);
      && h < e < |m|
      && (m[e] == 0 ==> Str(m, h) == m[h..e] && Ahead(m, h, delims) == [m[h..e]])
      && (m[e] != 0 ==>
            && IsString(m, e + 1) && End(m, e + 1) == End(m, h)
            && Ahead(m, h, delims) == [m[h..e]] + Pieces(Str(m, e + 1), delims))
  {
    hide Split, NonEmpty;
    var e := Span(m, h, delims);
    var p := m[h..e];
    SpanInString(m, h, delims);
    if m[e] == 0 {
      EndIs(m, h, e);
      OnePiece(p, delims);
    } else {
      EndIs(m, e + 1, End(m, h));
      var rest := Str(m, e + 1);
      assert Str(m, h) == p + [m[e]] + rest;
      FirstOfPieces(p, m[e], rest, delims);
    }
  }

  lemma PassDelimiter(m: seq<byte>, h: nat, delims: set<byte>)
    requires IsString(m, h) && 0 !in delims && m[h] in delims
    ensures IsString(m[h := 0], h + 1)
    ensures Ahead(m, h, delims) == Ahead(m[h := 0], h + 1, delims)
  {
    EndIs(m[h := 0], h + 1, End(m, h));
    var s := Str(m, h);
    assert s[1..] == Str(m[h := 0], h + 1);
    NonEmptyCons([], Split(s[1..], delims));
  }

  /** What is ahead once the piece was cut off. */
  lemma AheadOfCut(m: seq<byte>, h: nat, e: nat, delims: set<byte>)
    requires IsString(m, h) && h <= e < End(m, h)
    ensures |m[e := 0]| == |m| && Str(m[e := 0], h) == m[h..e]
    ensures Ahead(m[e := 0], e + 1, delims) == Pieces(Str(m, e + 1), delims)
  {
    Cut(m, h, e);
    hide Pieces;
  }

  /** A call at the start of a piece cuts it off, or takes the last one as it is. */
  lemma TokenAtPiece(m: seq<byte>, h: nat, delims: set<byte>)
    requires IsString(m, h) && 0 !in delims && m[h] != 0 && m[h] !in delims
    ensures var e := Span(m, h, delims);
      && h < e < |m| && (m[e] != 0 ==> e < End(m, h))
      && NextToken(m, h, delims) == if m[e] != 0 then Tokenised(m[e := 0], e + 1, h) else Tokenised(m, NULL, h)
  {
    SpanInString(m, h, delims);
  }

  lemma TakePiece(m: seq<byte>, h: nat, delims: set<byte>)
    requires IsString(m, h) && 0 !in delims && m[h] != 0 && m[h] !in delims
    ensures var t := NextToken(m, h, delims);
      && t.token == h && t.holder <= |t.mem| == |m|
      && Ahead(m, h, delims) == [Str(t.mem, h)] + Ahead(t.mem, t.holder, delims)
  {
    hide Pieces, Span, Str, NextToken, Ahead;
    TokenAtPiece(m, h, delims);
    FirstPiece(m, h, delims);
    var e := Span(m, h, delims);
    if m[e] != 0 {
      AheadOfCut(m, h, e, delims);
    } else {
      NothingAhead(m, delims);
      assert [m[h..e]] + [] == [m[h..e]];
    }
  }

  lemma NothingAhead(m: seq<byte>, delims: set<byte>)
    ensures Ahead(m, NULL, delims) == []
  {
  }

  /** A call returns the first piece ahead and leaves the others ahead, or finds none. */
  lemma {:induction false} TokenStep(m: seq<byte>, h: nat, delims: set<byte>)
    requires IsString(m, h) && 0 !in delims
    ensures var t := NextToken(m, h, delims);
      && t.holder <= |t.mem| && t.token < |t.mem|
      && Ahead(m, h, delims) ==
           if t.token == NULL then [] else [Str(t.mem, t.token)] + Ahead(t.mem, t.holder, delims)
    decreases |m| - h
  {
    TokenMemory(m, h, delims);
    if m[h] == 0 {
      NonEmptyCons([], []);
      assert Str(m, h) == [] && Split([], delims) == [[]] + [];
    } else if m[h] in delims {
      PassDelimiter(m, h, delims);
      TokenStep(m[h := 0], h + 1, delims);
    } else {
      TakePiece(m, h, delims);
    }
  }

  // ---------- Calling strtok until NULL ----------

  /** The strings that repeated calls return. */
  function Tokens(m: seq<byte>, h: nat, delims: set<byte>): seq<seq<byte>>
    requires h == NULL || IsString(m, h)
    requires 0 !in delims
    decreases if h == NULL then 0 else 1 + |m| - h
  {
    if h == NULL then []
    else
      TokenMemory(m, h, delims);
      var t := NextToken(m, h, delims);
      if t.token == NULL then [] else [Str(t.mem, t.token)] + Tokens(t.mem, t.holder, delims)
  }

  /** The memory they leave behind. */
  function Exhausted(m: seq<byte>, h: nat, delims: set<byte>): seq<byte>
    requires h == NULL || IsString(m, h)
    requires 0 !in delims
    decreases if h == NULL then 0 else 1 + |m| - h
  {
    if h == NULL then m
    else
      TokenMemory(m, h, delims);
      var t := NextToken(m, h, delims);
      Exhausted(t.mem, t.holder, delims)
  }

  /** Tokenising to the end yields the non-empty pieces in order and turns exactly the
      delimiters of the string into NUL. */
  lemma {:induction false} TokeniserIsCorrect(m: seq<byte>, h: nat, delims: set<byte>)
    requires IsString(m, h) && 0 !in delims
    ensures Tokens(m, h, delims) == Pieces(Str(m, h), delims)
    ensures |Exhausted(m, h, delims)| == |m|
    ensures forall i | 0 <= i < |m| ::
      Exhausted(m, h, delims)[i] == if h <= i < End(m, h) && m[i] in delims then 0 else m[i]
    decreases |m| - h
  {
    TokenStep(m, h, delims);
    TokenMemory(m, h, delims);
    var t := NextToken(m, h, delims);
    if t.holder == NULL {
    } else {
      TokeniserIsCorrect(t.mem, t.holder, delims);
    }
  }

  function DelimSet(delim: seq<byte>): set<byte> { set b | b in delim }

  class StringMemory {
    const mem: array<byte>
    var holder: nat

    constructor (mem: array<byte>)
      ensures this.mem == mem && holder == NULL
    {
      this.mem, holder := mem, NULL;
    }

    method Strlen(p: nat) returns (n: nat)
      requires p != NULL ==> IsString(mem[..], p)
      ensures n == if p == NULL then 0 else |Str(mem[..], p)|
    {
      if p == NULL {
        return 0;
      }
      n := 0;
      while mem[p + n] != 0
        invariant p + n <= End(mem[..], p)
        decreases End(mem[..], p) - n
      {
        n := n + 1;
      }
      EndIs(mem[..], p, p + n);
    }

    /** `memcpy`, byte by byte; ranges that do not overlap are copied as they were. */
    method Memcpy(dst: nat, src: nat, n: nat)
      requires dst + n <= mem.Length && src + n <= mem.Length
      modifies mem
      ensures mem[..] == CopyUp(old(mem[..]), dst, src, n)
      ensures n == 0 || dst + n <= src || src + n <= dst ==> Copied(old(mem[..]), mem[..], dst, src, n)
    {
      ghost var m := mem[..];
      var i := 0;
      while i < n
        invariant 0 <= i <= n
        invariant mem[..] == CopyUp(m, dst, src, i)
      {
        mem[dst + i] := mem[src + i];
        i := i + 1;
        assert mem[..] == CopyUp(m, dst, src, i);
      }
      if n == 0 || dst + n <= src || src + n <= dst {
        CopyUpPrefix(m, dst, src, n, n);
      }
    }

    /** `__strxspn` as `strpbrk` calls it, with parity 1: the match table also stops at NUL. */
    method Strxspn(s: nat, delim: seq<byte>) returns (n: nat)
      requires IsString(mem[..], s) && 0 !in delim
      ensures s + n == Span(mem[..], s, DelimSet(delim))
    {
      var matchmap := new byte[256](_ => 0);
      var k := 0;
      while k < |delim|
        invariant 0 <= k <= |delim|
        invariant forall b | 0 <= b < 256 :: matchmap[b] == if b in delim[..k] then 1 else 0
      {
        matchmap[delim[k]] := 1;
        k := k + 1;
      }
      assert delim[..k] == delim;
      matchmap[0] := 1;
      n := 0;
      while matchmap[mem[s + n]] != 1
        invariant s + n <= End(mem[..], s)
        invariant Span(mem[..], s, DelimSet(delim)) == Span(mem[..], s + n, DelimSet(delim))
        decreases End(mem[..], s) - n
      {
        n := n + 1;
      }
    }

    method Strpbrk(s: nat, delim: seq<byte>) returns (p: nat)
      requires IsString(mem[..], s) && 0 !in delim
      ensures var e := Span(mem[..], s, DelimSet(delim));
        e < mem.Length && p == if mem[e] != 0 then e else NULL
    {
      var n := Strxspn(s, delim);
      SpanInString(mem[..], s, DelimSet(delim));
      return if mem[s + n] != 0 then s + n else NULL;
    }

    /** `strsep(&holder, delim)`. */
    method Strsep(delim: seq<byte>) returns (s: nat)
      requires holder != NULL ==> IsString(mem[..], holder)
      requires 0 !in delim
      modifies this, mem
      ensures s == old(holder)
      ensures s == NULL ==> holder == NULL && mem[..] == old(mem[..])
      ensures s != NULL ==>
        var e := Span(old(mem[..]), s, DelimSet(delim));
        && e < mem.Length
        && (old(mem[e]) == 0 ==> holder == NULL && mem[..] == old(mem[..]))
        && (old(mem[e]) != 0 ==> holder == e + 1 && mem[..] == old(mem[..])[e := 0])
    {
      s := holder;
      if s == NULL {
        return;
      }
      var e := Strpbrk(s, delim);
      if e != NULL {
        mem[e] := 0;
        e := e + 1;
      }
      holder := e;
    }

    /** `strtok`. */
    method Strtok(start: nat, delim: seq<byte>) returns (s: nat)
      requires start != NULL ==> IsString(mem[..], start)
      requires start == NULL && holder != NULL ==> IsString(mem[..], holder)
      requires 0 !in delim
      modifies this, mem
      ensures Tokenised(mem[..], holder, s) ==
        NextToken(old(mem[..]), if start != NULL then start else old(holder), DelimSet(delim))
    {
      ghost var from := if start != NULL then start else holder;
      ghost var t := NextToken(mem[..], from, DelimSet(delim));
      if start != NULL {
        holder := start;
      }
      s := Strsep1(delim, t);
      while s != NULL && mem[s] == 0
        invariant s != NULL ==> s < mem.Length
        invariant s != NULL && mem[s] == 0 ==>
          (holder == NULL || IsString(mem[..], holder)) && NextToken(mem[..], holder, DelimSet(delim)) == t
        invariant s == NULL || mem[s] != 0 ==> Tokenised(mem[..], holder, s) == t
        decreases if holder == NULL then 0 else 1 + mem.Length - holder, s != NULL
      {
        s := Strsep1(delim, t);
      }
    }

    /** One round of the loop of `strtok`: either the answer, or one delimiter less. */
    method Strsep1(delim: seq<byte>, ghost t: Tokenised) returns (s: nat)
      requires holder != NULL ==> IsString(mem[..], holder)
      requires 0 !in delim && NextToken(mem[..], holder, DelimSet(delim)) == t
      modifies this, mem
      ensures s == old(holder) && (s != NULL ==> s < mem.Length)
      ensures holder != NULL ==> old(holder) != NULL && holder > old(holder)
      ensures s != NULL && mem[s] == 0 ==>
        (holder == NULL || IsString(mem[..], holder)) && NextToken(mem[..], holder, DelimSet(delim)) == t
      ensures s == NULL || mem[s] != 0 ==> Tokenised(mem[..], holder, s) == t
    {
      ghost var m := mem[..];
      s := Strsep(delim);
      if s != NULL && holder != NULL {
        EndIs(mem[..], holder, End(m, s));
      }
    }
  }

  lemma SpanInString(m: seq<byte>, p: nat, stop: set<byte>)
    requires IsString(m, p)
    ensures Span(m, p, stop) <= End(m, p)
  {
  }
}
