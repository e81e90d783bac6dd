/** Drive identifiers (core/dsk/diskio.c), as far as `iso_clean_path_reverse` depends on them. */
module DriveIds {
  import opened CStrings
  import opened StringHelpers

  const UNKNOWN: byte := 0xFF

  /** `strdigit_toInt`: 10 stands for "not a digit". */
  function DigitOf(b: byte): nat { if b < 48 || b > 57 then 10 else b - 48 }

  /** The ten digits have their values, and nothing else has one. */
  lemma DigitOfIff(b: byte, n: nat)
    requires n < 10
    ensures DigitOf(b) == n <==> b == 48 + n
    ensures DigitOf(b) <= 10
  {
  }

  /** `drive_type`. */
  function DriveType(id: seq<byte>): byte {
    if SameUntil(id, [72, 68], 2) then 0 else if SameUntil(id, [67, 68], 2) then 1 else UNKNOWN
  }

  /** `to_actual_drive`: the slot of the `n`th drive (from zero) of a type. */
  function ActualDrive(drives: seq<byte>, n: nat, kind: byte, from: nat): (r: byte)
    requires from <= |drives| <= 4
    ensures r != UNKNOWN ==> from <= r < |drives| && drives[r] == kind
    decreases |drives| - from
  {
    if from == |drives| then UNKNOWN
    else if drives[from] != kind then ActualDrive(drives, n, kind, from + 1)
    else if n == 0 then from
    else ActualDrive(drives, n - 1, kind, from + 1)
  }

  function Count(drives: seq<byte>, kind: byte): nat {
    if drives == [] then 0 else (if drives[0] == kind then 1 else 0) + Count(drives[1..], kind)
  }

  lemma {:induction false} CountAppend(a: seq<byte>, b: seq<byte>, kind: byte)
    ensures Count(a + b, kind) == Count(a, kind) + Count(b, kind)
    ensures Count([kind], kind) == 1 && forall other: byte | other != kind :: Count([other], kind) == 0
  {
    if a == [] {
      assert a + b == b;
    } else {
      CountAppend(a[1..], b, kind);
      assert (a + b)[1..] == a[1..] + b;
    }
  }

  /** Drive `n` of a type is there exactly when the list holds more than `n` of that type, and
      then it is the one with `n` of them before it. */
  lemma {:induction false} ActualDriveIsNth(drives: seq<byte>, n: nat, kind: byte, from: nat)
    requires from <= |drives| <= 4
    ensures var r := ActualDrive(drives, n, kind, from);
      && (r != UNKNOWN <==> Count(drives[from..], kind) > n)
      && (r != UNKNOWN ==> from <= r && Count(drives[from..r], kind) == n)
    decreases |drives| - from
  {
    if from == |drives| {
    } else {
      var m := if drives[from] != kind then n else n - 1;
      if 0 <= m {
        ActualDriveIsNth(drives, m, kind, from + 1);
        var r := ActualDrive(drives, m, kind, from + 1);
        if r != UNKNOWN {
          assert drives[from..r][1..] == drives[from + 1..r];
        }
      }
      assert drives[from..][1..] == drives[from + 1..];
    }
  }

  /** `convert_drive_id` for the string at `p`. The unknown-type marker is one byte, so it lands
      in the partition half of the result. */
  function ConvertDriveId(m: seq<byte>, p: nat, drives: seq<byte>): nat
    requires IsString(m, p) && p + 4 < |m| && |drives| <= 4
  {
    var kind := DriveType(Str(m, p));
    if kind == UNKNOWN then 0xFF
    else if DigitOf(m[p + 2]) == 10 then 0xFFFF
    else
      var result := ActualDrive(drives, DigitOf(m[p + 2]), kind, 0) * 0x100;
      if m[p + 3] != 80 then result
      else if DigitOf(m[p + 4]) == 10 then 0xFFFF
      else result + DigitOf(m[p + 4])
  }

  /** `to_actual_drive` counts the drives of the type. */
  method ToActualDrive(drives: seq<byte>, n: byte, kind: byte) returns (r: byte)
    requires |drives| <= 4 && n < 255
    ensures r == ActualDrive(drives, n, kind, 0)
  {
    var drive := n + 1;
    var found := 0;
    var i := 0;
    while i < |drives|
      invariant 0 <= i <= |drives| && found < drive && found <= i
      invariant ActualDrive(drives, n, kind, 0) == ActualDrive(drives, n - found, kind, i)
    {
      if drives[i] == kind {
        found := found + 1;
        if found == drive {
          return i;
        }
      }
      i := i + 1;
    }
    return UNKNOWN;
  }

  /** `convert_drive_id`, in the order in which it looks at the string. */
  method ConvertId(s: StringMemory, p: nat, drives: seq<byte>) returns (id: nat)
    requires IsString(s.mem[..], p) && p + 4 < s.mem.Length && |drives| <= 4
    ensures id == ConvertDriveId(s.mem[..], p, drives)
  {
    var kind := DriveType(Str(s.mem[..], p));
    if kind == UNKNOWN {
      return kind;
    }
    var drive: byte := DigitOf(s.mem[p + 2]);
    if drive == 10 {
      return 0xFFFF;
    }
    drive := ToActualDrive(drives, drive, kind);
    if s.mem[p + 3] != 80 {
      return drive * 0x100;
    }
    var partition := DigitOf(s.mem[p + 4]);
    return if partition == 10 then 0xFFFF else drive * 0x100 + partition;
  }

  /** `iso_clean_path_reverse` strips four bytes unless the upper half of the id is 0xFF. */
  predicate StripsDrive(m: seq<byte>, p: nat, drives: seq<byte>)
    requires IsString(m, p) && p + 4 < |m| && |drives| <= 4
  {
    ConvertDriveId(m, p, drives) / 0x100 != 0xFF
  }

  /** The two halves of the id of a drive that is there: its slot in the list of all drives, which
      has `n` drives of its type before it, and the partition, zero without a `P`. */
  lemma ConvertedHalves(m: seq<byte>, p: nat, drives: seq<byte>, kind: byte, n: nat) returns (slot: nat)
    requires IsString(m, p) && p + 4 < |m| && |drives| <= 4 && 2 <= |Str(m, p)| && kind < 2 && n < 10
    requires Str(m, p)[0] == (if kind == 0 then 72 else 67) && Str(m, p)[1] == 68 && m[p + 2] == 48 + n
    requires Count(drives, kind) > n && PartitionOk(m, p)
    ensures slot < |drives| && drives[slot] == kind && Count(drives[..slot], kind) == n
    ensures ConvertDriveId(m, p, drives) / 0x100 == slot
    ensures ConvertDriveId(m, p, drives) % 0x100 == if m[p + 3] == 80 then m[p + 4] - 48 else 0
  {
    SameAsName(Str(m, p), 72, 68);
    SameAsName(Str(m, p), 67, 68);
    ActualDriveIsNth(drives, n, kind, 0);
    assert drives[0..] == drives;
    slot := ActualDrive(drives, n, kind, 0);
    assert drives[0..slot] == drives[..slot];
  }

  /** The ids of all other strings: 0xFF without a drive type; 0xFFFF when the drive number, or the
      number behind a `P`, is no digit; and 0xFF as the slot of a drive that is not there. */
  lemma ConvertedOtherwise(m: seq<byte>, p: nat, drives: seq<byte>)
    requires IsString(m, p) && p + 4 < |m| && |drives| <= 4
    ensures var text, id := Str(m, p), ConvertDriveId(m, p, drives);
      if !Names(text, 72, 68) && !Names(text, 67, 68) then id == 0xFF
      else if DigitOf(m[p + 2]) >= 10 || !PartitionOk(m, p) then id == 0xFFFF
      else Count(drives, if Names(text, 72, 68) then 0 else 1) <= DigitOf(m[p + 2]) ==>
        id == (if m[p + 3] == 80 then 0xFF00 + m[p + 4] as int - 48 else 0xFF00)
  {
    var text := Str(m, p);
    SameAsName(text, 72, 68);
    SameAsName(text, 67, 68);
    assert drives[0..] == drives;
    ActualDriveIsNth(drives, DigitOf(m[p + 2]), 0, 0);
    ActualDriveIsNth(drives, DigitOf(m[p + 2]), 1, 0);
  }

  /** `strcmp_until` takes the first letter alone for the whole type. */
  predicate Names(text: seq<byte>, first: byte, second: byte) {
    text != [] && text[0] == first && (|text| == 1 || text[1] == second)
  }

  /** Which paths lose their first four bytes: with the id of a drive that is there, and with no
      drive id at all; a path keeps them when the drive is not there, or when its number, or the
      number of a partition, is no digit. */
  lemma StripsDriveIff(m: seq<byte>, p: nat, drives: seq<byte>)
    requires IsString(m, p) && p + 4 < |m| && |drives| <= 4
    ensures var text, digit := Str(m, p), DigitOf(m[p + 2]);
      StripsDrive(m, p, drives) <==>
        if Names(text, 72, 68) then digit < 10 && Count(drives, 0) > digit && PartitionOk(m, p)
        else if Names(text, 67, 68) then digit < 10 && Count(drives, 1) > digit && PartitionOk(m, p)
        else true
  {
    var text := Str(m, p);
    SameAsName(text, 72, 68);
    SameAsName(text, 67, 68);
    assert drives[0..] == drives;
    ActualDriveIsNth(drives, DigitOf(m[p + 2]), 0, 0);
    ActualDriveIsNth(drives, DigitOf(m[p + 2]), 1, 0);
  }

  lemma SameAsName(text: seq<byte>, first: byte, second: byte)
    requires first != 0
    ensures SameUntil(text, [first, second], 2) <==> Names(text, first, second)
  {
    assert |text| > 1 && SameUntil(text, [first, second], 2) ==> text[1] == [first, second][1];
  }

  /** A `P` behind the drive number is followed by a digit. */
  predicate PartitionOk(m: seq<byte>, p: nat)
    requires p + 4 < |m|
  {
    m[p + 3] == 80 ==> DigitOf(m[p + 4]) < 10
  }
}
