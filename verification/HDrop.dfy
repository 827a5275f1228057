/** The CF_HDROP buffer: a DROPFILES header, then file paths each ending in a null, then one more null. */
module HDrop {
  import opened Bytes

  /** A path as its UTF-16 code units, or as bytes in the ANSI form. */
  type Name = seq<u16>

  const DROPFILES_SIZE: nat := 20

  datatype DropList = DropList(wide: bool, names: seq<Name>)

  // ---------------------------------------------------------------- the format

  /** The five fields: offset of the paths, two coordinates, a non-client flag, and whether the paths are UTF-16. */
  const HEADER: seq<byte> :=
    [20, 0, 0, 0] + [0, 0, 0, 0] + [0, 0, 0, 0] + [0, 0, 0, 0] + [1, 0, 0, 0]

  function NullEnded(names: seq<Name>): seq<u16> {
    if names == [] then [] else names[0] + [0] + NullEnded(names[1..])
  }

  function Low(u: u16): byte { u % 256 }
  function High(u: u16): byte { u / 256 }
  function Unit(low: int, high: int): int { low + 256 * high }

  lemma UnitBack(u: u16)
    ensures Unit(Low(u), High(u)) == u
  {
  }

  function WideBytes(us: seq<u16>): (b: seq<byte>)
    ensures |b| == 2 * |us|
  {
    seq(2 * |us|, i requires 0 <= i < 2 * |us| => if i % 2 == 0 then Low(us[i / 2]) else High(us[i / 2]))
  }

  /** The whole buffer for these paths. */
  function DropFiles(names: seq<Name>): seq<byte> {
    HEADER + WideBytes(NullEnded(names) + [0])
  }

  function Offset(b: seq<byte>): nat
    requires |b| >= DROPFILES_SIZE
  {
    LittleEndianValue(b[0..4])
  }

  predicate IsWide(b: seq<byte>)
    requires |b| >= DROPFILES_SIZE
  {
    LittleEndianValue(b[16..20]) != 0
  }

  /** The whole units from an offset on. */
  function Units(b: seq<byte>, offset: nat, wide: bool): seq<u16>
    requires offset <= |b|
  {
    if wide then seq((|b| - offset) / 2, k requires 0 <= k < (|b| - offset) / 2 => Unit(b[offset + 2 * k], b[offset + 2 * k + 1]))
    else seq(|b| - offset, k requires 0 <= k < |b| - offset => b[offset + k])
  }

  /** The position of the first null, or the length. */
  function FirstNull(us: seq<u16>): (k: nat)
    ensures k <= |us| && (k < |us| ==> us[k] == 0) && 0 !in us[..k]
  {
    if us == [] || us[0] == 0 then 0
    else
      var k := FirstNull(us[1..]);
      assert us[..k + 1] == [us[0]] + us[1..][..k];
      k + 1
  }

  lemma {:induction false} FirstNullAtMost(us: seq<u16>, j: nat)
    requires j < |us| && us[j] == 0
    ensures FirstNull(us) <= j
  {
    if us[0] != 0 {
      FirstNullAtMost(us[1..], j - 1);
    }
  }

  /** The paths before the first empty one; nothing if the units run out before it. */
  function Names(us: seq<u16>): Option<seq<Name>>
    decreases |us|
  {
    if us == [] then None
    else if us[0] == 0 then Some([])
    else
      var k := FirstNull(us);
      if k == |us| then None
      else
        var rest := Names(us[k + 1..]);
        if rest == None then None else Some([us[..k]] + rest.value)
  }

  /** A drop list a reader can walk without leaving the buffer. */
  predicate WellFormed(b: seq<byte>) {
    && |b| >= DROPFILES_SIZE && Offset(b) <= |b|
    && Names(Units(b, Offset(b), IsWide(b))).Some?
  }

  function Listed(b: seq<byte>): Option<DropList>
    requires WellFormed(b)
  {
    var names := Names(Units(b, Offset(b), IsWide(b))).value;
    if names == [] then None else Some(DropList(IsWide(b), names))
  }

  // ---------------------------------------------------------------- the writer

  /** The units written so far lie behind the header, little-endian. */
  ghost predicate Holds(b: seq<byte>, done: seq<u16>) {
    && |b| >= DROPFILES_SIZE + 2 * |done|
    && b[..DROPFILES_SIZE] == HEADER
    && forall k :: 0 <= k < |done| ==> b[DROPFILES_SIZE + 2 * k] == Low(done[k]) && b[DROPFILES_SIZE + 2 * k + 1] == High(done[k])
  }

  /** Store one unit where the cursor stands. */
  method PutUnit(buffer: array<byte>, dest: nat, u: u16, ghost done: seq<u16>)
    requires dest == DROPFILES_SIZE + 2 * |done| && dest + 2 <= buffer.Length
    requires Holds(buffer[..], done)
    modifies buffer
    ensures Holds(buffer[..], done + [u])
  {
    buffer[dest], buffer[dest + 1] := Low(u), High(u);
    assert buffer[..][..DROPFILES_SIZE] == HEADER by {
      assert old(buffer[..])[..DROPFILES_SIZE] == HEADER;
    }
  }

  method PutHeader(buffer: array<byte>)
    requires buffer.Length >= DROPFILES_SIZE
    modifies buffer
    ensures Holds(buffer[..], [])
  {
    for i := 0 to DROPFILES_SIZE
      invariant buffer[..i] == HEADER[..i]
    {
      buffer[i] := HEADER[i];
      assert buffer[..i + 1] == buffer[..i] + [buffer[i]];
    }
    assert buffer[..][..DROPFILES_SIZE] == buffer[..DROPFILES_SIZE];
  }

  /** The null-ended paths and how many units they take, the last null included. */
  method WidePaths(paths: seq<Name>) returns (widePaths: seq<Name>, totalChars: nat)
    ensures |widePaths| == |paths| && forall k :: 0 <= k < |paths| ==> widePaths[k] == paths[k] + [0]
    ensures totalChars == |NullEnded(paths)| + 1
  {
    widePaths, totalChars := [], 0;
    for i := 0 to |paths|
      invariant |widePaths| == i && forall k :: 0 <= k < i ==> widePaths[k] == paths[k] + [0]
      invariant totalChars + |NullEnded(paths[i..])| == |NullEnded(paths)|
    {
      var wide := paths[i] + [0];
      assert paths[i..][1..] == paths[i + 1..];
      totalChars := totalChars + |wide|;
      widePaths := widePaths + [wide];
    }
    totalChars := totalChars + 1;
  }

  method PutPath(buffer: array<byte>, start: nat, wide: Name, ghost done: seq<u16>) returns (dest: nat)
    requires start == DROPFILES_SIZE + 2 * |done| && start + 2 * |wide| <= buffer.Length
    requires Holds(buffer[..], done)
    modifies buffer
    ensures dest == start + 2 * |wide| && Holds(buffer[..], done + wide)
  {
    hide Holds;
    dest := start;
    assert done + wide[..0] == done;
    for j := 0 to |wide|
      invariant dest == start + 2 * j && Holds(buffer[..], done + wide[..j])
    {
      PutUnit(buffer, dest, wide[j], done + wide[..j]);
      dest := dest + 2;
      assert done + wide[..j + 1] == done + wide[..j] + [wide[j]];
    }
    assert wide[..|wide|] == wide;
  }

  /**
   `set_clipboard_file_list`: the buffer handed to the clipboard. The header, then every unit of
   every null-ended path, then a last null; the cursor ends exactly at the allocated size.
   */
  method SetClipboardFileList(paths: seq<Name>) returns (handle: Option<array<byte>>)
    ensures handle.None? <==> paths == []
    ensures handle.Some? ==> fresh(handle.value) && handle.value[..] == DropFiles(paths)
  {
    hide Holds, WideBytes;
    if paths == [] {
      return None;
    }
    var widePaths, totalChars := WidePaths(paths);
    var buffer := new byte[DROPFILES_SIZE + totalChars * 2](_ => 0);
    PutHeader(buffer);

    var dest := DROPFILES_SIZE;
    ghost var done: seq<u16> := [];
    for i := 0 to |paths|
      invariant done + NullEnded(paths[i..]) == NullEnded(paths)
      invariant dest == DROPFILES_SIZE + 2 * |done| && Holds(buffer[..], done)
    {
      OneDone(paths, i, done);
      dest := PutPath(buffer, dest, widePaths[i], done);
      done := done + widePaths[i];
    }
    assert done + [] == done && paths[|paths|..] == [];
    PutUnit(buffer, dest, 0, done);
    Filled(buffer[..], done + [0]);
    handle := Some(buffer);
  }

  lemma OneDone(paths: seq<Name>, i: nat, done: seq<u16>)
    requires i < |paths| && done + NullEnded(paths[i..]) == NullEnded(paths)
    ensures (done + (paths[i] + [0])) + NullEnded(paths[i + 1..]) == NullEnded(paths)
  {
    var wide, others := paths[i] + [0], NullEnded(paths[i + 1..]);
    assert NullEnded(paths[i..]) == wide + others by {
      assert paths[i..][0] == paths[i] && paths[i..][1..] == paths[i + 1..];
    }
    Assoc(done, wide, others);
  }

  lemma Filled(b: seq<byte>, us: seq<u16>)
    requires Holds(b, us) && |b| == DROPFILES_SIZE + 2 * |us|
    ensures b == HEADER + WideBytes(us)
  {
    forall i | DROPFILES_SIZE <= i < |b| ensures b[i] == (HEADER + WideBytes(us))[i] {
      var k := (i - DROPFILES_SIZE) / 2;
      assert b[DROPFILES_SIZE + 2 * k] == Low(us[k]);
    }
    assert b == b[..DROPFILES_SIZE] + b[DROPFILES_SIZE..];
  }

  // ---------------------------------------------------------------- the reader

  lemma UnitsAt(b: seq<byte>, offset: nat, wide: bool, k: nat)
    requires offset <= |b| && k < |Units(b, offset, wide)|
    ensures wide ==> offset + 2 * k + 1 < |b| && Units(b, offset, wide)[k] == Unit(b[offset + 2 * k], b[offset + 2 * k + 1])
    ensures !wide ==> offset + k < |b| && Units(b, offset, wide)[k] == b[offset + k]
  {
    hide Unit;
  }

  /** Load the unit at a cursor, `k` units past the offset. */
  method UnitAt(b: array<byte>, offset: nat, wide: bool, k: nat) returns (u: u16)
    requires offset <= b.Length && k < |Units(b[..], offset, wide)|
    ensures u == Units(b[..], offset, wide)[k]
  {
    hide Units, Unit;
    UnitsAt(b[..], offset, wide, k);
    if wide {
      u := Unit(b[offset + 2 * k], b[offset + 2 * k + 1]);
    } else {
      u := b[offset + k];
    }
  }

  /** Walk the list from its first unit: both loops stop inside the buffer. */
  method WalkNames(b: array<byte>, offset: nat, wide: bool) returns (files: seq<Name>)
    requires offset <= b.Length && Names(Units(b[..], offset, wide)).Some?
    ensures Names(Units(b[..], offset, wide)) == Some(files)
  {
    hide Units, Names, FirstNull;
    ghost var us := Units(b[..], offset, wide);
    files := [];
    var pos := 0;
    assert us[0..] == us && files + Names(us).value == Names(us).value;
    ghost var _ := NextStop(us, pos);
    var unit := UnitAt(b, offset, wide, pos);
    while unit != 0
      invariant pos < |us| && unit == us[pos]
      invariant Names(us[pos..]).Some? && Names(us) == Some(files + Names(us[pos..]).value)
      decreases |us| - pos
    {
      ghost var start := pos;
      ghost var stop := NextStop(us, start);
      var name: Name := [];
      while unit != 0
        invariant start <= pos <= stop && name == us[start..pos] && unit == us[pos]
        decreases stop - pos
      {
        name := name + [unit];
        pos := pos + 1;
        unit := UnitAt(b, offset, wide, pos);
      }
      NextName(us, start, pos);
      assert Names(us).value == (files + [name]) + Names(us[pos + 1..]).value;
      files := files + [name];
      pos := pos + 1;
      ghost var _ := NextStop(us, pos);
      unit := UnitAt(b, offset, wide, pos);
    }
    ghost var _ := NextStop(us, pos);
    assert files + [] == files;
  }

  /** From where a path may start, the position of the next null; standing on it means the walk is over. */
  lemma NextStop(us: seq<u16>, pos: nat) returns (stop: nat)
    requires pos <= |us| && Names(us[pos..]).Some?
    ensures pos <= stop < |us| && us[stop] == 0 && stop == pos + FirstNull(us[pos..])
    ensures us[pos] == 0 ==> Names(us[pos..]) == Some([])
  {
    stop := pos + FirstNull(us[pos..]);
  }

  /** A walk that found its next null has found the next path. */
  lemma NextName(us: seq<u16>, start: nat, pos: nat)
    requires start < pos < |us| && us[start] != 0 && us[pos] == 0 && pos <= start + FirstNull(us[start..])
    requires Names(us[start..]).Some?
    ensures pos + 1 < |us| && Names(us[pos + 1..]).Some?
    ensures Names(us[start..]) == Some([us[start..pos]] + Names(us[pos + 1..]).value)
  {
    hide FirstNull;
    var (t, k) := (us[start..], pos - start);
    assert t[0] == us[start] && t[k] == us[pos];
    FirstNullAtMost(t, k);
    assert FirstNull(t) == k && k < |t|;
    assert t[..k] == us[start..pos] && t[k + 1..] == us[pos + 1..];
  }

  /** `get_clipboard_file_list`. */
  method GetClipboardFileList(b: array<byte>) returns (r: Option<DropList>)
    requires WellFormed(b[..])
    ensures r == Listed(b[..])
  {
    var offset := LittleEndianValue(b[0..4]);
    var wide := LittleEndianValue(b[16..20]) != 0;
    assert b[..][0..4] == b[0..4] && b[..][16..20] == b[16..20];
    var files := WalkNames(b, offset, wide);
    r := if files == [] then None else Some(DropList(wide, files));
  }

  // ---------------------------------------------------------------- round trip

  predicate Plain(name: Name) { name != [] && 0 !in name }

  /** Whatever the reader returns are plain paths, and the units it walked are exactly their null-ended form and one more null. */
  lemma {:induction false} NamesAreTheUnits(us: seq<u16>)
    requires Names(us).Some?
    ensures forall n :: n in Names(us).value ==> Plain(n)
    ensures NullEnded(Names(us).value) + [0] <= us
    decreases |us|
  {
    if us[0] != 0 {
      var k := FirstNull(us);
      var rest := us[k + 1..];
      NamesAreTheUnits(rest);
      PlainFirst(us);
      OneMore(us[..k], Names(rest).value, rest);
      assert us == us[..k] + [0] + rest;
    }
  }

  lemma PlainFirst(us: seq<u16>)
    requires us != [] && us[0] != 0
    ensures Plain(us[..FirstNull(us)])
  {
  }

  lemma OneMore(name: Name, names: seq<Name>, rest: seq<u16>)
    requires NullEnded(names) + [0] <= rest
    ensures NullEnded([name] + names) + [0] <= name + [0] + rest
  {
    assert ([name] + names)[1..] == names;
    var more := rest[|NullEnded(names)| + 1..];
    assert rest == NullEnded(names) + [0] + more;
    assert name + [0] + rest == NullEnded([name] + names) + [0] + more;
  }

  /** Units that end in two nulls are walked in bounds. */
  lemma {:induction false} DoubleNullEndsTheWalk(us: seq<u16>)
    requires us != [] && us[|us| - 1] == 0 && (|us| > 1 ==> us[|us| - 2] == 0)
    ensures Names(us).Some?
    decreases |us|
  {
    if us[0] != 0 {
      var k := FirstNull(us);
      FirstNullAtMost(us, |us| - 2);
      DoubleNullEndsTheWalk(us[k + 1..]);
    }
  }

  /** Plain paths, each with its null, and one more null are read back as they are, whatever follows. */
  lemma {:induction false} PlainNamesAreRead(names: seq<Name>, after: seq<u16>)
    requires forall n :: n in names ==> Plain(n)
    ensures Names(NullEnded(names) + [0] + after) == Some(names)
  {
    var us := NullEnded(names) + [0] + after;
    if names != [] {
      var n := names[0];
      var others := NullEnded(names[1..]) + [0] + after;
      assert Plain(n);
      assert us == n + [0] + others;
      NameIsFirst(n, others);
      PlainNamesAreRead(names[1..], after);
      assert us[|n| + 1..] == others;
      assert us[..|n|] == n && us[0] == n[0];
      assert n[0] in n;
      assert names == [n] + names[1..];
    }
  }

  lemma {:induction false} NameIsFirst(n: Name, rest: seq<u16>)
    requires 0 !in n
    ensures FirstNull(n + [0] + rest) == |n|
  {
    if n != [] {
      assert (n + [0] + rest)[1..] == n[1..] + [0] + rest;
      assert n[0] in n;
      NameIsFirst(n[1..], rest);
    }
  }

  lemma {:induction false} NullEndedEndsInNull(names: seq<Name>)
    requires names != []
    ensures NullEnded(names) != [] && NullEnded(names)[|NullEnded(names)| - 1] == 0
  {
    if |names| > 1 {
      NullEndedEndsInNull(names[1..]);
    }
  }

  /** What the writer put behind the header is what the reader finds there. */
  lemma WrittenUnits(names: seq<Name>)
    ensures var b := DropFiles(names);
            && |b| >= DROPFILES_SIZE && Offset(b) == DROPFILES_SIZE && IsWide(b)
            && Units(b, DROPFILES_SIZE, true) == NullEnded(names) + [0]
  {
    var us := NullEnded(names) + [0];
    var b := DropFiles(names);
    assert b[0..4] == [20, 0, 0, 0] && b[16..20] == [1, 0, 0, 0];
    HeaderValues();
    var read := Units(b, DROPFILES_SIZE, true);
    assert |read| == |us|;
    forall k | 0 <= k < |us| ensures read[k] == us[k] {
      UnitRead(us, k);
    }
    assert read == us;
  }

  lemma UnitRead(us: seq<u16>, k: nat)
    requires k < |us|
    ensures Units(HEADER + WideBytes(us), DROPFILES_SIZE, true)[k] == us[k]
  {
    hide Low, High, Unit;
    var b := HEADER + WideBytes(us);
    WideBytesAt(us, k);
    assert b[DROPFILES_SIZE + 2 * k] == WideBytes(us)[2 * k];
    assert b[DROPFILES_SIZE + 2 * k + 1] == WideBytes(us)[2 * k + 1];
    UnitBack(us[k]);
  }

  lemma WideBytesAt(us: seq<u16>, k: nat)
    requires k < |us|
    ensures WideBytes(us)[2 * k] == Low(us[k]) && WideBytes(us)[2 * k + 1] == High(us[k])
  {
    hide Low, High;
    assert (2 * k) % 2 == 0 && (2 * k) / 2 == k;
    assert (2 * k + 1) % 2 == 1 && (2 * k + 1) / 2 == k;
  }

  lemma HeaderValues()
    ensures LittleEndianValue([20, 0, 0, 0]) == 20 && LittleEndianValue([1, 0, 0, 0]) == 1
  {
    assert [20, 0, 0, 0][1..] == [0, 0, 0] && [1, 0, 0, 0][1..] == [0, 0, 0];
    assert [0, 0, 0][1..] == [0, 0] && [0, 0][1..] == [0];
    assert LittleEndianValue([0]) == 0 && LittleEndianValue([0, 0]) == 0 && LittleEndianValue([0, 0, 0]) == 0;
  }

  /**
   A written buffer is always walked in bounds, and reading it gives back the list that was written
   if and only if the list is not empty and every path in it is non-empty and free of nulls.
   */
  lemma RoundTrip(names: seq<Name>)
    ensures WellFormed(DropFiles(names))
    ensures Listed(DropFiles(names)) == Some(DropList(true, names))
            <==> names != [] && forall n :: n in names ==> Plain(n)
  {
    hide Units, WideBytes, DropFiles, Offset, IsWide;
    var us := NullEnded(names) + [0];
    WrittenUnits(names);
    if names != [] {
      NullEndedEndsInNull(names);
    }
    DoubleNullEndsTheWalk(us);
    NamesAreTheUnits(us);
    if forall n :: n in names ==> Plain(n) {
      PlainNamesAreRead(names, []);
      assert us + [] == us;
    }
  }

  /** Written out: the twenty header bytes, then each unit's low byte and high byte, and nothing more. */
  lemma WrittenBytes(names: seq<Name>)
    ensures var (b, us) := (DropFiles(names), NullEnded(names) + [0]);
            && |b| == 20 + 2 * |us| && b[..20] == [20, 0, 0, 0, 0, 0, 0, 0, 0, 0, 0, 0, 0, 0, 0, 0, 1, 0, 0, 0]
            && forall k :: 0 <= k < |us| ==> b[20 + 2 * k] == us[k] % 256 && b[20 + 2 * k + 1] == us[k] / 256
  {
    hide WideBytes;
    var us := NullEnded(names) + [0];
    forall k | 0 <= k < |us| ensures DropFiles(names)[20 + 2 * k] == us[k] % 256 && DropFiles(names)[20 + 2 * k + 1] == us[k] / 256 {
      WideBytesAt(us, k);
    }
  }

  /** From this offset the buffer holds these units: two bytes each, the low one first, or one byte each. */
  ghost predicate HasUnits(b: seq<byte>, offset: nat, wide: bool, us: seq<u16>) {
    if wide then
      offset + 2 * |us| <= |b| && forall k :: 0 <= k < |us| ==> b[offset + 2 * k] == us[k] % 256 && b[offset + 2 * k + 1] == us[k] / 256
    else
      offset + |us| <= |b| && forall k :: 0 <= k < |us| ==> us[k] == b[offset + k]
  }

  lemma UnitsThere(b: seq<byte>, offset: nat, wide: bool, us: seq<u16>)
    requires offset <= |b| && HasUnits(b, offset, wide, us)
    ensures us <= Units(b, offset, wide)
  {
    forall k | 0 <= k < |us| ensures Units(b, offset, wide)[k] == us[k] {
      UnitsAt(b, offset, wide, k);
    }
  }

  /**
   Any program's buffer is read alike: whatever its offset field, wide or not, if the units at the
   offset are plain paths, each with its null, and one more null, the reader returns just these paths.
   */
  lemma ForeignListIsRead(b: seq<byte>, offset: u32, names: seq<Name>)
    requires |b| >= 20 && b[0..4] == [offset % 256, offset / 0x100 % 256, offset / 0x1_0000 % 256, offset / 0x100_0000]
    requires HasUnits(b, offset, b[16..20] != [0, 0, 0, 0], NullEnded(names) + [0])
    requires forall n :: n in names ==> Plain(n)
    ensures WellFormed(b)
    ensures Listed(b) == if names == [] then None else Some(DropList(b[16..20] != [0, 0, 0, 0], names))
  {
    hide Units, LittleEndianValue, HasUnits, NullEnded, Names, Plain;
    var (us, wide) := (NullEnded(names) + [0], b[16..20] != [0, 0, 0, 0]);
    OffsetField(offset);
    WideField(b[16..20]);
    OffsetIn(b, offset, wide, us);
    UnitsThere(b, offset, wide, us);
    var all := Units(b, offset, wide);
    PlainNamesAreRead(names, all[|us|..]);
    assert all == us + all[|us|..];
  }

  lemma OffsetIn(b: seq<byte>, offset: nat, wide: bool, us: seq<u16>)
    requires HasUnits(b, offset, wide, us)
    ensures offset <= |b|
  {
  }

  lemma OffsetField(n: u32)
    ensures LittleEndianValue([n % 256, n / 0x100 % 256, n / 0x1_0000 % 256, n / 0x100_0000]) == n
  {
    var (d1, d2, d3) := (n / 0x100 % 256, n / 0x1_0000 % 256, n / 0x100_0000);
    assert LittleEndianValue([d3]) == d3 by { assert [d3][1..] == []; }
    assert [d2, d3][1..] == [d3] && [d1, d2, d3][1..] == [d2, d3] && [n % 256, d1, d2, d3][1..] == [d1, d2, d3];
    assert LittleEndianValue([d2, d3]) == d2 + 256 * d3 == n / 0x1_0000 by { assert n / 0x100_0000 == n / 0x1_0000 / 256; }
    assert LittleEndianValue([d1, d2, d3]) == n / 0x100 by { assert n / 0x1_0000 == n / 0x100 / 256; }
  }

  lemma WideField(f: seq<byte>)
    requires |f| == 4
    ensures LittleEndianValue(f) != 0 <==> f != [0, 0, 0, 0]
  {
    var (v3, v2, v1) := (LittleEndianValue(f[3..]), LittleEndianValue(f[2..]), LittleEndianValue(f[1..]));
    assert f[1..][1..] == f[2..] && f[2..][1..] == f[3..] && f[3..][1..] == [] && v3 == f[3];
    assert f == [f[0], f[1], f[2], f[3]];
  }
}
