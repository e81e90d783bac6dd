/** String helpers of core/util/util.c besides the tokeniser: comparing, searching, cutting. */
module StringHelpers {
  import opened CStrings
  import opened FirstFit

  const MAX := 0xFFFF_FFFF

  function FirstByte(s: seq<byte>): byte { if s == [] then 0 else s[0] }

  /** `strcmp_until` succeeds: no difference before either string ends or `stop` is reached, and
      the same first byte. A proper prefix compares as equal. */
  predicate SameUntil(a: seq<byte>, b: seq<byte>, stop: nat) {
    && FirstByte(a) == FirstByte(b)
    && forall i | 0 <= i < |a| && i < |b| && i < stop :: a[i] == b[i]
  }

  /** At most the first `stop` bytes. */
  function UpTo(s: seq<byte>, stop: nat): seq<byte> { if |s| <= stop then s else s[..stop] }

  /** Comparing is not equality. Of two strings the empty one is accepted with the empty one only;
      any others when they start with the same byte and, up to the limit, one is a prefix of the
      other. */
  lemma SameUntilIsPrefix(a: seq<byte>, b: seq<byte>, stop: nat)
    requires 0 !in a && 0 !in b
    ensures SameUntil(a, b, stop) <==>
      if a == [] || b == [] then a == b
      else a[0] == b[0] && (UpTo(a, stop) <= UpTo(b, stop) || UpTo(b, stop) <= UpTo(a, stop))
  {
    var x, y := UpTo(a, stop), UpTo(b, stop);
    assert a != [] ==> a[0] in a;
    assert b != [] ==> b[0] in b;
    if SameUntil(a, b, stop) && a != [] && b != [] {
      if |x| <= |y| {
        assert x == y[..|x|];
      } else {
        assert y == x[..|y|];
      }
    }
    if a != [] && b != [] && a[0] == b[0] && (x <= y || y <= x) {
      forall i | 0 <= i < |a| && i < |b| && i < stop ensures a[i] == b[i] {
        assert x[i] == y[i];
      }
    }
  }

  /** `strcmp_until`, reading the left string from memory. */
  method StrcmpUntil(b: array<byte>, p: nat, name: seq<byte>, stop: nat) returns (same: bool)
    requires p + stop < b.Length
    ensures same == SameUntil(Str(b[..], p), name, stop)
  {
    ghost var text := Str(b[..], p);
    assert forall k | 0 <= k < |text| :: text[k] == b[p + k] != 0;
    assert p + |text| < b.Length ==> b[p + |text|] == 0;
    hide Span;
    var i := 0;
    while b[p + i] != 0 && i < |name| && i < stop
      invariant i <= |name| && i <= stop && i <= |text|
      invariant forall k | 0 <= k < i :: text[k] == name[k]
      decreases stop - i
    {
      if b[p + i] != name[i] {
        assert text[i] != name[i];
        return false;
      }
      i := i + 1;
    }
    return b[p] == FirstByte(name);
  }

  /** `strchr` starts looking at the second byte. */
  predicate Dotted(m: seq<byte>, p: nat)
    requires p < |m|
  {
    DOT in Str(m, p + 1)
  }

  /** So a dot at the very start of a name is not seen. */
  lemma DottedSkipsFirst(m: seq<byte>, p: nat)
    requires IsString(m, p) && Str(m, p) != []
    ensures Dotted(m, p) <==> DOT in Str(m, p)[1..]
  {
    EndIs(m, p + 1, End(m, p));
    assert Str(m, p)[1..] == Str(m, p + 1);
  }

  method HasDot(s: StringMemory, p: nat) returns (r: bool)
    requires IsString(s.mem[..], p + 1)
    ensures r == Dotted(s.mem[..], p)
  {
    var i := 1;
    while s.mem[p + i] != 0
      invariant 1 <= i && p + i <= End(s.mem[..], p + 1)
      invariant forall k | p + 1 <= k < p + i :: s.mem[k] != DOT
      decreases End(s.mem[..], p + 1) - i
    {
      if s.mem[p + i] == DOT {
        assert Str(s.mem[..], p + 1)[i - 1] == DOT;
        return true;
      }
      i := i + 1;
    }
    EndIs(s.mem[..], p + 1, p + i);
    return false;
  }

  // ---------- Searching ----------

  /** `find_in_str` from position `i` with `c` bytes matched: no more than a count is kept, and a
      mismatch starts over with the next byte. */
  function Scan(text: seq<byte>, fnd: seq<byte>, i: nat, c: nat): Option<nat>
    requires c < |fnd| && c <= i
    decreases |text| - i
  {
    if i >= |text| then None
    else if text[i] != fnd[c] then Scan(text, fnd, i + 1, 0)
    else if c + 1 == |fnd| then Some(i + 1 - |fnd|)
    else Scan(text, fnd, i + 1, c + 1)
  }

  predicate OccursAt(text: seq<byte>, fnd: seq<byte>, k: nat) {
    k + |fnd| <= |text| && forall j | 0 <= j < |fnd| :: text[k + j] == fnd[j]
  }

  /** The needle repeats a single byte. */
  predicate Constant(fnd: seq<byte>) { forall i | 0 <= i < |fnd| :: fnd[i] == fnd[0] }

  /** `find_in_str`. The empty needle is found behind the first byte of any string but the empty
      one, where it is not found. */
  method FindInStr(s: StringMemory, o: nat, fnd: seq<byte>) returns (r: nat)
    requires IsString(s.mem[..], o) && 0 !in fnd && |s.mem[..]| <= MAX
    ensures fnd == [] ==> r == if Str(s.mem[..], o) == [] then MAX else 1
    ensures fnd != [] ==>
      match Scan(Str(s.mem[..], o), fnd, 0, 0)
      case None => r == MAX
      case Some(k) => r == k
  {
    ghost var text := Str(s.mem[..], o);
    var c := 0;
    var len := |fnd|;
    var olen: int := s.Strlen(o);
    olen := olen + 1;
    var i := 0;
    while i < olen
      invariant 0 <= i <= olen && 0 <= c <= i
      invariant if fnd == [] then i == 0 || text == [] else c < len && Scan(text, fnd, 0, 0) == Scan(text, fnd, i, c)
    {
      assert s.mem[o + i] == if i < |text| then text[i] else 0;
      if s.mem[o + i] == if c < len then fnd[c] else 0 {
        c := c + 1;
      } else {
        c := 0;
      }
      if c == len {
        return i - len + 1;
      }
      i := i + 1;
    }
    return MAX;
  }

  /** What is found is an occurrence, for every needle. */
  lemma {:induction false} ScanIsSound(text: seq<byte>, fnd: seq<byte>, i: nat, c: nat)
    requires c < |fnd| && c <= i <= |text|
    requires forall j | 0 <= j < c :: text[i - c + j] == fnd[j]
    ensures Scan(text, fnd, i, c).Some? ==> OccursAt(text, fnd, Scan(text, fnd, i, c).value)
    decreases |text| - i
  {
    if i >= |text| {
    } else {
      if text[i] != fnd[c] {
        ScanIsSound(text, fnd, i + 1, 0);
      } else if c + 1 < |fnd| {
        ScanIsSound(text, fnd, i + 1, c + 1);
      }
    }
  }

  /** A needle of one repeated byte is never missed, and found where it first occurs. */
  lemma {:induction false} ScanConstant(text: seq<byte>, fnd: seq<byte>, i: nat, c: nat, k: nat)
    requires fnd != [] && Constant(fnd) && c < |fnd| && c <= i <= |text|
    requires k + |fnd| <= |text| && i - c <= k && forall j | k <= j < k + |fnd| :: text[j] == fnd[0]
    ensures Scan(text, fnd, i, c).Some? && Scan(text, fnd, i, c).value <= k
    decreases |text| - i
  {
    if text[i] != fnd[c] {
      ScanConstant(text, fnd, i + 1, 0, k);
    } else if c + 1 < |fnd| {
      ScanConstant(text, fnd, i + 1, c + 1, k);
    }
  }

  /** Too little text is left to complete the needle. */
  lemma {:induction false} ScanShort(text: seq<byte>, fnd: seq<byte>, i: nat, c: nat)
    requires c < |fnd| && c <= i <= |text| && c + (|text| - i) < |fnd|
    ensures Scan(text, fnd, i, c) == None
    decreases |text| - i
  {
    if i >= |text| {
    } else {
      ScanShort(text, fnd, i + 1, if text[i] != fnd[c] then 0 else c + 1);
    }
  }

  lemma {:induction false} ScanPrefix(text: seq<byte>, fnd: seq<byte>, i: nat, j: nat)
    requires i <= j < |fnd| && j < |text| && forall k | 0 <= k < j :: text[k] == fnd[k]
    ensures Scan(text, fnd, i, i) == Scan(text, fnd, j, j)
    decreases j - i
  {
    if i == j {
    } else {
      ScanPrefix(text, fnd, i + 1, j);
    }
  }

  /** A needle of different bytes is missed right behind its own first byte. */
  lemma NeedleMissed(fnd: seq<byte>)
    requires fnd != [] && !Constant(fnd)
    ensures OccursAt([fnd[0]] + fnd, fnd, 1) && Scan([fnd[0]] + fnd, fnd, 0, 0) == None
  {
    var text := [fnd[0]] + fnd;
    var j := FirstOther(fnd, 1);
    ScanPrefix(text, fnd, 0, j);
    assert text[j] == fnd[j - 1];
    ScanShort(text, fnd, j + 1, 0);
  }

  lemma FirstOther(fnd: seq<byte>, from: nat) returns (j: nat)
    requires fnd != [] && !Constant(fnd) && 0 < from <= |fnd|
    requires forall k | 0 <= k < from :: fnd[k] == fnd[0]
    ensures 0 < j < |fnd| && fnd[j] != fnd[0] && forall k | 0 <= k < j :: fnd[k] == fnd[0]
    decreases |fnd| - from
  {
    if fnd[from] != fnd[0] {
      j := from;
    } else {
      j := FirstOther(fnd, from + 1);
    }
  }

  /** `find_in_str` finds a needle in every text that holds it exactly when the needle repeats a
      single byte. */
  lemma FindIsCompleteIffConstant(fnd: seq<byte>)
    requires fnd != []
    ensures Constant(fnd) <==>
      forall text: seq<byte>, k: nat :: OccursAt(text, fnd, k) ==> Scan(text, fnd, 0, 0).Some?
  {
    if Constant(fnd) {
      forall text: seq<byte>, k: nat | OccursAt(text, fnd, k) ensures Scan(text, fnd, 0, 0).Some? {
        forall j | k <= j < k + |fnd| ensures text[j] == fnd[0] {
          assert text[k + (j - k)] == fnd[j - k];
        }
        ScanConstant(text, fnd, 0, 0, k);
      }
    } else {
      NeedleMissed(fnd);
    }
  }

  /** How many bytes of the needle stand at `k`. */
  function Matched(text: seq<byte>, fnd: seq<byte>, k: nat, c: nat): (r: nat)
    requires c <= |fnd|
    ensures c <= r <= |fnd|
    ensures r < |fnd| ==> k + r >= |text| || text[k + r] != fnd[r]
    ensures c < r ==> k + r <= |text|
    ensures forall i {:trigger fnd[i]} | c <= i < r :: fnd[i] == text[k + i]
    decreases |fnd| - c
  {
    if c == |fnd| || k + c >= |text| || text[k + c] != fnd[c] then c else Matched(text, fnd, k, c + 1)
  }

  /** What the search does, for every needle: bytes that do not start it are skipped; where it
      starts, it is found or the search goes on behind the byte that does not match. */
  lemma SearchRestarts(text: seq<byte>, fnd: seq<byte>, i: nat)
    requires fnd != [] && i < |text|
    ensures Scan(text, fnd, i, 0) ==
      var n := Matched(text, fnd, i, 0);
      if n == |fnd| then Some(i) else if i + n < |text| then Scan(text, fnd, i + n + 1, 0) else None
  {
    SearchContinues(text, fnd, i, 0);
  }

  lemma {:induction false} SearchContinues(text: seq<byte>, fnd: seq<byte>, k: nat, c: nat)
    requires c < |fnd| && k + c <= |text|
    ensures Scan(text, fnd, k + c, c) ==
      var n := Matched(text, fnd, k, c);
      if n == |fnd| then Some(k) else if k + n < |text| then Scan(text, fnd, k + n + 1, 0) else None
    decreases |fnd| - c
  {
    if k + c >= |text| || text[k + c] != fnd[c] || c + 1 == |fnd| {
    } else {
      SearchContinues(text, fnd, k, c + 1);
    }
  }

  /** A one-byte needle: the first position, or none. */
  lemma FindByte(text: seq<byte>, b: byte)
    ensures match Scan(text, [b], 0, 0)
      case None => b !in text
      case Some(k) => k < |text| && text[k] == b && b !in text[..k]
  {
    ScanIsSound(text, [b], 0, 0);
    forall k: nat | k < |text| && text[k] == b
      ensures Scan(text, [b], 0, 0).Some? && Scan(text, [b], 0, 0).value <= k
    {
      ScanConstant(text, [b], 0, 0, k);
    }
    if Scan(text, [b], 0, 0).Some? {
      assert OccursAt(text, [b], Scan(text, [b], 0, 0).value);
      assert text[Scan(text, [b], 0, 0).value + 0] == b;
    }
  }

  // ---------- Cutting ----------

  /** The memory after `remove_from_str`. For a string shorter than `n` the unsigned index of the
      terminator wraps: the string stays, and a byte in front of it is cleared. */
  function Removed(m: seq<byte>, p: nat, n: nat): (r: seq<byte>)
    requires IsString(m, p) && n <= End(m, p)
    ensures |r| == |m|
  {
    var end := End(m, p);
    if p + n <= end then m[..p] + m[p + n..end] + [0] + m[end - n + 1..] else m[end - n := 0]
  }

  /** The string loses its first `n` bytes, if it has that many. */
  lemma RemovedString(m: seq<byte>, p: nat, n: nat)
    requires IsString(m, p) && n <= End(m, p)
    ensures var r, text := Removed(m, p, n), Str(m, p);
      && IsString(r, p)
      && Str(r, p) == (if n <= |text| then text[n..] else text)
      && r[End(m, p) - n] == 0
      && (forall i | 0 <= i < |m| && !(p <= i <= End(m, p) - n) && i != End(m, p) - n :: r[i] == m[i])
  {
    var r, end := Removed(m, p, n), End(m, p);
    if p + n <= end {
      assert forall i | p <= i < end - n :: r[i] == m[i + n];
      EndIs(r, p, end - n);
    } else {
      StrFrame(m, r, p);
    }
  }

  /** Everything from `n` bytes behind `p` up to `end` stands at `p` now. */
  ghost predicate Shifted(m: seq<byte>, m': seq<byte>, p: nat, n: nat, end: nat) {
    && |m'| == |m| && end <= |m|
    && (forall i | p <= i < end - n :: m'[i] == m[i + n])
    && (forall i | 0 <= i < |m| && !(p <= i < end - n) :: m'[i] == m[i])
  }

  /** The loop of `remove_from_str`, for a string that ends at `p + max`. */
  method ShiftDown(s: StringMemory, p: nat, n: nat, max: nat)
    requires p + max < s.mem.Length
    modifies s.mem
    ensures Shifted(old(s.mem[..]), s.mem[..], p, n, p + max)
  {
    var i, k := 0, n;
    while k < max
      invariant n <= k && i == k - n && (k <= max || i == 0)
      invariant forall j | p <= j < p + i :: s.mem[j] == old(s.mem[j + n])
      invariant forall j | 0 <= j < s.mem.Length && !(p <= j < p + i) :: s.mem[j] == old(s.mem[j])
    {
      s.mem[p + i] := s.mem[p + k];
      i := i + 1;
      k := k + 1;
    }
  }

  lemma CutIsRemoved(m: seq<byte>, m1: seq<byte>, p: nat, n: nat)
    requires IsString(m, p) && n <= End(m, p) && Shifted(m, m1, p, n, End(m, p))
    ensures m1[End(m, p) - n := 0] == Removed(m, p, n)
  {
    hide Span;
  }

  /** `remove_from_str`. */
  method RemoveFromStr(s: StringMemory, p: nat, n: nat)
    requires IsString(s.mem[..], p) && n <= End(s.mem[..], p) && s.mem.Length <= MAX
    modifies s.mem
    ensures s.mem[..] == Removed(old(s.mem[..]), p, n)
  {
    ghost var m := s.mem[..];
    var max: int := s.Strlen(p);
    assert p + max == End(m, p);
    hide Span, U32, At, Removed, Shifted;
    WrapAt(p, max - n);
    ShiftDown(s, p, n, max);
    CutIsRemoved(m, s.mem[..], p, n);
    s.mem[At(p, U32(max - n))] := 0;
  }
}
