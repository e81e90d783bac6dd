/** The path-table walk of core/drv/FS/iso9660.c: counting to a record, fetching it, and
    searching a sector for a name. Records are laid out as in section 9.4 of ECMA-119. */
module PathTable {
  import opened CStrings
  import opened StringHelpers
  import opened FirstFit

  const SECTOR_SIZE := 2048
  const NOT_FOUND := 0xFFFF
  const HEADER := 8

  /** A directory identifier with the six bytes between its length and its name. */
  datatype Record = Record(middle: seq<byte>, parent: nat, ident: seq<byte>)

  predicate WellFormed(r: Record) {
    |r.middle| == 5 && r.parent < 0x1_0000 && 0 < |r.ident| < 256
  }

  /** A record without its padding: length, extended length and extent, parent, name. */
  function Bytes(r: Record): (b: seq<byte>)
    requires WellFormed(r)
    ensures |b| == HEADER + |r.ident|
  {
    [|r.ident|] + r.middle + [r.parent % 256, r.parent / 256] + r.ident
  }

  /** The length of a record in the table: odd names are followed by a padding byte. */
  function Size(identLen: nat): nat { HEADER + identLen + if identLen % 2 == 1 then 1 else 0 }

  /** The running offset is sixteen bits wide. */
  function Next(read: nat, identLen: nat): (r: nat)
    ensures read + Size(identLen) < 0x1_0000 ==> r == read + Size(identLen)
  {
    (read + Size(identLen)) % 0x1_0000
  }

  function Padded(r: Record): (b: seq<byte>)
    requires WellFormed(r)
    ensures |b| == Size(|r.ident|)
  {
    Bytes(r) + if |r.ident| % 2 == 1 then [0] else []
  }

  /** Where the fields are: length, the five bytes of extended length and extent, parent, name. */
  lemma RecordFields(r: Record)
    requires WellFormed(r)
    ensures var b := Bytes(r);
      && b[0] == |r.ident| && b[1..6] == r.middle && b[8..] == r.ident
      && b[6] as int + 0x100 * (b[7] as int) == r.parent
  {
  }

  /** A record takes its eight bytes and its name, rounded up to an even number. */
  lemma SizeIsEven(identLen: nat)
    ensures Size(identLen) % 2 == 0 && 8 + identLen <= Size(identLen) <= 9 + identLen
  {
  }

  predicate AllWellFormed(rs: seq<Record>) { forall k | 0 <= k < |rs| :: WellFormed(rs[k]) }

  function Encode(rs: seq<Record>): (b: seq<byte>)
    requires AllWellFormed(rs)
  {
    if rs == [] then [] else Padded(rs[0]) + Encode(rs[1..])
  }

  /** Where record `k` starts; past the last record the table is zero, and a zero record takes
      eight bytes. */
  function Offset(rs: seq<Record>, k: nat): nat {
    if k == 0 then 0
    else if rs == [] then HEADER * k
    else Size(|rs[0].ident|) + Offset(rs[1..], k - 1)
  }

  /** A one-sector table of these records, zero behind them, somewhere in memory. */
  ghost predicate Table(m: seq<byte>, rs: seq<Record>) {
    && AllWellFormed(rs)
    && SECTOR_SIZE + 0x200 <= |m|
    && |Encode(rs)| <= SECTOR_SIZE
    && (forall i | 0 <= i < |Encode(rs)| :: m[i] == Encode(rs)[i])
    && (forall i | |Encode(rs)| <= i < SECTOR_SIZE :: m[i] == 0)
  }

  lemma {:induction false} EncodeLength(rs: seq<Record>)
    requires AllWellFormed(rs)
    ensures |Encode(rs)| == Offset(rs, |rs|)
  {
    if rs == [] {
    } else {
      EncodeLength(rs[1..]);
    }
  }

  /** Record `k` lies at its offset. */
  lemma {:induction false} RecordInEncoding(rs: seq<Record>, k: nat)
    requires AllWellFormed(rs) && k < |rs|
    ensures Offset(rs, k + 1) == Offset(rs, k) + Size(|rs[k].ident|) <= |Encode(rs)|
    ensures Encode(rs)[Offset(rs, k)..Offset(rs, k + 1)] == Padded(rs[k])
  {
    hide Bytes, Padded, Size;
    if k == 0 {
      assert Offset(rs[1..], 0) == 0;
      assert Encode(rs)[..Size(|rs[0].ident|)] == Padded(rs[0]);
    } else {
      RecordInEncoding(rs[1..], k - 1);
      var n := |Padded(rs[0])|;
      var lo, hi := Offset(rs[1..], k - 1), Offset(rs[1..], k);
      assert Encode(rs)[n + lo..n + hi] == Encode(rs[1..])[lo..hi];
    }
  }

  lemma {:induction false} OffsetBehind(rs: seq<Record>, k: nat)
    requires k >= |rs|
    ensures Offset(rs, k) == Offset(rs, |rs|) + HEADER * (k - |rs|)
  {
    if rs == [] {
    } else {
      OffsetBehind(rs[1..], k - 1);
    }
  }

  /** The bytes of record `k` in a table. */
  lemma RecordAt(m: seq<byte>, rs: seq<Record>, k: nat)
    requires Table(m, rs) && k < |rs|
    ensures var at := Offset(rs, k);
      && at + Size(|rs[k].ident|) == Offset(rs, k + 1) <= SECTOR_SIZE
      && m[at..at + HEADER + |rs[k].ident|] == Bytes(rs[k])
      && m[at] == |rs[k].ident|
      && m[at + HEADER..at + HEADER + |rs[k].ident|] == rs[k].ident
  {
    RecordInEncoding(rs, k);
    var at, r := Offset(rs, k), rs[k];
    forall i | 0 <= i < |Bytes(r)| ensures m[at + i] == Bytes(r)[i] {
      assert Encode(rs)[at..Offset(rs, k + 1)][i] == Padded(r)[i];
    }
    assert m[at..at + |Bytes(r)|] == Bytes(r);
    assert m[at + 0] == Bytes(r)[0];
    assert Bytes(r)[HEADER..] == r.ident;
  }

  /** Behind the records every header is zero. */
  lemma ZeroAt(m: seq<byte>, rs: seq<Record>, k: nat)
    requires Table(m, rs) && k >= |rs| && Offset(rs, k) < SECTOR_SIZE
    ensures m[Offset(rs, k)] == 0 && Offset(rs, k + 1) == Offset(rs, k) + HEADER
    ensures Offset(rs, k) + HEADER <= SECTOR_SIZE ==> m[Offset(rs, k) + 6] == m[Offset(rs, k) + 7] == 0
  {
    EncodeLength(rs);
    OffsetBehind(rs, k);
    OffsetBehind(rs, k + 1);
  }

  /** The step from one record to the next. */
  lemma NextOffset(m: seq<byte>, rs: seq<Record>, k: nat)
    requires Table(m, rs) && Offset(rs, k) < SECTOR_SIZE
    ensures Offset(rs, k + 1) == Offset(rs, k) + Size(m[Offset(rs, k)])
  {
    if k < |rs| {
      RecordAt(m, rs, k);
    } else {
      ZeroAt(m, rs, k);
    }
  }

  /** `iso_count_index`, counting from zero: stops at the offset of record `until`, or at the
      first record boundary at or past the end of the sector. */
  method CountIndex(b: array<byte>, until: nat, ghost rs: seq<Record>) returns (index: nat, read: nat)
    requires Table(b[..], rs) && until < 0x1_0000
    ensures index <= until && read == Offset(rs, index)
    ensures index == until || read >= SECTOR_SIZE
    ensures forall k | 0 <= k < index :: Offset(rs, k) < SECTOR_SIZE
  {
    read, index := 0, 0;
    while read < SECTOR_SIZE
      invariant index <= until && read == Offset(rs, index) && read < 0x1_0000
      invariant forall k | 0 <= k < index :: Offset(rs, k) < SECTOR_SIZE
      decreases SECTOR_SIZE - read
    {
      var identLen := b[read];
      if index == until {
        break;
      }
      NextOffset(b[..], rs, index);
      read := Next(read, identLen);
      index := (index + 1) % 0x1_0000;
    }
  }

  /** `iso_find_index` for a path table of one sector. */
  method FindIndex(b: array<byte>, index: nat, ghost rs: seq<Record>) returns (r: Option<seq<byte>>)
    requires Table(b[..], rs) && index < 0x1_0000
    ensures index == 0 ==> r == None
    ensures 0 < index < |rs| ==> r == Some(Bytes(rs[index]))
    ensures 0 < index && index >= |rs| ==>
      && (r.None? <==> Offset(rs, index) >= SECTOR_SIZE)
      && (Offset(rs, index) + HEADER <= SECTOR_SIZE ==> r == Some([0, 0, 0, 0, 0, 0, 0, 0]))
  {
    if index == 0 {
      return None;
    }
    var i, read := CountIndex(b, index, rs);
    OffsetsGrow(rs, i, index);
    if index < |rs| {
      RecordAt(b[..], rs, index);
    } else if Offset(rs, index) < SECTOR_SIZE {
      ZeroAt(b[..], rs, index);
      ZeroHeader(b[..], rs, index);
    }
    if read >= SECTOR_SIZE {
      return None;
    }
    var len := b[read] + HEADER;
    return Some(b[read..read + len]);
  }

  lemma {:induction false} OffsetsGrow(rs: seq<Record>, i: nat, k: nat)
    requires i <= k
    ensures Offset(rs, i) <= Offset(rs, k)
    ensures i < k ==> Offset(rs, i) < Offset(rs, k)
  {
    if i == 0 {
    } else {
      if rs != [] {
        OffsetsGrow(rs[1..], i - 1, k - 1);
      }
    }
  }

  lemma ZeroHeader(m: seq<byte>, rs: seq<Record>, k: nat)
    requires Table(m, rs) && k >= |rs| && Offset(rs, k) < SECTOR_SIZE
    ensures Offset(rs, k) + HEADER <= SECTOR_SIZE ==>
      m[Offset(rs, k)..Offset(rs, k) + HEADER] == [0, 0, 0, 0, 0, 0, 0, 0]
  {
    EncodeLength(rs);
    OffsetBehind(rs, k);
  }

  // ---------- Searching for a name ----------

  /** The name of a record matches the one looked for. */
  predicate Matches(ident: seq<byte>, name: seq<byte>) { SameUntil(UpToNul(ident), name, |ident|) }

  /** Matching is not equality: either name may be a prefix of the other. But an identifier that is
      empty up to its NUL, as that of the root is, matches the empty name only. */
  lemma MatchesIsPrefix(ident: seq<byte>, name: seq<byte>)
    requires 0 !in name
    ensures var own := UpToNul(ident);
      Matches(ident, name) <==> if own == [] || name == [] then own == name else own <= name || name <= own
  {
    var own := UpToNul(ident);
    SameUntilIsPrefix(own, name, |ident|);
    if own != [] && name != [] && |name| > |ident| {
      assert UpTo(name, |ident|) == name[..|ident|];
    }
  }

  /** The first record from `from` on whose name matches. */
  function FirstMatch(rs: seq<Record>, from: nat, name: seq<byte>): (r: Option<nat>)
    requires from <= |rs|
    ensures r.Some? ==> from <= r.value < |rs| && Matches(rs[r.value].ident, name)
    ensures forall k | from <= k < (if r.Some? then r.value else |rs|) :: !Matches(rs[k].ident, name)
    decreases |rs| - from
  {
    if from == |rs| then None
    else if Matches(rs[from].ident, name) then Some(from)
    else FirstMatch(rs, from + 1, name)
  }

  /** A search for a name never ends at the root record, whose identifier is one NUL. */
  lemma RootIsNeverFound(rs: seq<Record>, from: nat, name: seq<byte>)
    requires from <= |rs| && 0 !in name && name != []
    ensures FirstMatch(rs, from, name).Some? ==> rs[FirstMatch(rs, from, name).value].ident != [0]
  {
    if FirstMatch(rs, from, name).Some? {
      MatchesIsPrefix(rs[FirstMatch(rs, from, name).value].ident, name);
    }
  }

  /** Only the bytes of the identifier decide a comparison that stops at its length. */
  lemma ComparesIdent(m: seq<byte>, p: nat, ident: seq<byte>, name: seq<byte>)
    requires ident != [] && p + |ident| < |m| && m[p..p + |ident|] == ident
    ensures SameUntil(Str(m, p), name, |ident|) == Matches(ident, name)
  {
    var a, c := Str(m, p), UpToNul(ident);
    assert forall i | 0 <= i < |ident| :: m[p + i] == ident[i];
    SpanOfPrefix(m, p, ident);
    assert FirstByte(a) == m[p] == FirstByte(c);
    assert forall i | 0 <= i < |c| :: i < |a| && a[i] == m[p + i] == c[i];
  }

  lemma SpanOfPrefix(m: seq<byte>, p: nat, ident: seq<byte>)
    requires p + |ident| < |m| && forall i | 0 <= i < |ident| :: m[p + i] == ident[i]
    ensures var k := Span(ident, 0, {});
      if k < |ident| then End(m, p) == p + k else p + |ident| <= End(m, p)
  {
    var k := Span(ident, 0, {});
    assert forall i | p <= i < p + |ident| :: m[i] == ident[i - p];
    if k < |ident| {
      EndIs(m, p, p + k);
    }
  }

  /** The records leave less than a header at the end of the sector, so the search reads a parent
      number and a name behind it, and takes them for a record that matches. */
  ghost predicate Stray(m: seq<byte>, rs: seq<Record>, name: seq<byte>)
    requires Table(m, rs)
  {
    var at := |Encode(rs)|;
    && SECTOR_SIZE - HEADER < at < SECTOR_SIZE
    && !(m[at + 6] == 0 && m[at + 7] == 0)
    && FirstByte(Str(m, at + HEADER)) == FirstByte(name)
  }

  lemma HeaderBehind(m: seq<byte>, rs: seq<Record>, name: seq<byte>)
    requires Table(m, rs) && |Encode(rs)| < SECTOR_SIZE
    ensures var at := |Encode(rs)|;
      && at == Offset(rs, |rs|) && m[at] == 0 && Next(at, 0) == at + HEADER
      && (Stray(m, rs, name) <==> !(m[at + 6] == 0 && m[at + 7] == 0) && SameUntil(Str(m, at + HEADER), name, 0))
      && (!(m[at + 6] == 0 && m[at + 7] == 0) ==> SECTOR_SIZE < at + HEADER)
  {
    hide Encode, Str, Offset, FirstByte;
    EncodeLength(rs);
  }

  /** What the search reads at a boundary: a record whose name decides whether the search ends
      there, or an empty identifier behind the records. */
  lemma HeaderAt(m: seq<byte>, rs: seq<Record>, k: nat, name: seq<byte>)
    requires Table(m, rs) && k <= |rs| && Offset(rs, k) < SECTOR_SIZE
    ensures var at := Offset(rs, k);
      && (k == |rs| ==>
            && m[at] == 0 && Next(at, 0) == at + HEADER
            && (Stray(m, rs, name) <==> !(m[at + 6] == 0 && m[at + 7] == 0) && SameUntil(Str(m, at + HEADER), name, 0))
            && (!(m[at + 6] == 0 && m[at + 7] == 0) ==> SECTOR_SIZE < at + HEADER))
      && (k < |rs| ==>
            && 0 < m[at] && Next(at, m[at]) == Offset(rs, k + 1) <= SECTOR_SIZE
            && FirstMatch(rs, k, name) ==
                 if SameUntil(Str(m, at + HEADER), name, m[at]) then Some(k) else FirstMatch(rs, k + 1, name))
  {
    hide Stray, Encode;
    EncodeLength(rs);
    if k == |rs| {
      HeaderBehind(m, rs, name);
    } else {
      hide SameUntil, Matches, Span, Encode, Bytes, Next;
      RecordAt(m, rs, k);
      ComparesIdent(m, Offset(rs, k) + HEADER, rs[k].ident, name);
    }
  }

  datatype Probed = Ended | Found | Passed(next: nat)

  /** One round of the search, at the boundary of record `k`. */
  method Probe(b: array<byte>, name: seq<byte>, read: nat, ghost rs: seq<Record>, ghost k: nat) returns (r: Probed)
    requires Table(b[..], rs) && k <= |rs| && read == Offset(rs, k) < SECTOR_SIZE
    ensures k == |rs| ==> (r.Found? <==> Stray(b[..], rs, name)) && (r.Passed? ==> r.next >= SECTOR_SIZE)
    ensures k < |rs| ==>
      match r
      case Ended => false
      case Found => FirstMatch(rs, k, name) == Some(k)
      case Passed(next) =>
        next == Offset(rs, k + 1) <= SECTOR_SIZE && FirstMatch(rs, k, name) == FirstMatch(rs, k + 1, name)
  {
    assert SECTOR_SIZE + 0x200 <= b.Length;
    ghost var m := b[..];
    HeaderAt(m, rs, k, name);
    hide Table, Span, SameUntil, FirstMatch, Matches, Str, Size, Offset, Next, Stray;
    var identLen := b[read];
    assert b[read] == m[read] && b[read + 6] == m[read + 6] && b[read + 7] == m[read + 7];
    if identLen == 0 && b[read + 6] == 0 && b[read + 7] == 0 {
      return Ended;
    }
    var same := StrcmpUntil(b, read + HEADER, name, identLen);
    return if same then Found else Passed(Next(read, identLen));
  }

  /** `iso_read_path_table_buffer` from a record boundary: the offset of the first record from
      there on whose name matches. Without one it is 0xFFFF, unless the records leave less than a
      header at the end of the sector and what lies behind it passes for a match. */
  method ReadPathTableBuffer(b: array<byte>, name: seq<byte>, s: nat, ghost rs: seq<Record>, ghost from: nat)
    returns (r: nat)
    requires Table(b[..], rs) && from <= |rs| && s == Offset(rs, from)
    ensures match FirstMatch(rs, from, name)
      case None => r == if Stray(b[..], rs, name) then |Encode(rs)| else NOT_FOUND
      case Some(k) => r == Offset(rs, k)
  {
    EncodeLength(rs);
    hide Table, FirstMatch, Offset, Stray, Encode;
    OffsetInSector(b[..], rs, from);
    var read := s;
    ghost var k := from;
    while read < SECTOR_SIZE
      invariant from <= k <= |rs| + 1
      invariant k <= |rs| ==>
        read == Offset(rs, k) <= SECTOR_SIZE && FirstMatch(rs, from, name) == FirstMatch(rs, k, name)
      invariant k > |rs| ==> read >= SECTOR_SIZE && FirstMatch(rs, from, name) == None && !Stray(b[..], rs, name)
      decreases |rs| + 1 - k
    {
      if k == |rs| {
        NoneBehind(rs, name);
      }
      var probed := Probe(b, name, read, rs, k);
      match probed {
        case Ended => break;
        case Found => return read;
        case Passed(next) => read := next;
      }
      k := k + 1;
    }
    if k <= |rs| && read >= SECTOR_SIZE {
      EndOfTable(b[..], rs, k, name);
    }
    return NOT_FOUND;
  }

  lemma NoneBehind(rs: seq<Record>, name: seq<byte>)
    ensures FirstMatch(rs, |rs|, name) == None
  {
  }

  lemma OffsetInSector(m: seq<byte>, rs: seq<Record>, k: nat)
    requires Table(m, rs) && k <= |rs|
    ensures Offset(rs, k) <= SECTOR_SIZE
  {
    EncodeLength(rs);
    OffsetsGrow(rs, k, |rs|);
  }

  lemma EndOfTable(m: seq<byte>, rs: seq<Record>, k: nat, name: seq<byte>)
    requires Table(m, rs) && k <= |rs| && Offset(rs, k) >= SECTOR_SIZE
    ensures k == |rs| && FirstMatch(rs, k, name) == None && !Stray(m, rs, name)
  {
    EncodeLength(rs);
    if k < |rs| {
      RecordAt(m, rs, k);
    }
  }
}
