/** The bytes a drag from the table puts on the clipboard for Windows
    programs (LocalAssetBrowser.py, eventFilter): the FileNameW list of
    UTF-16LE path names and the CF_HDROP block, a DROPFILES header followed
    by the same list. Each is paired with the reader a receiving program
    applies to it. */
module DragPayload {
  import opened Common

  newtype byte = x: int | 0 <= x < 256

  // ---------------------------------------------------------------------------
  // UTF-16 code units
  // ---------------------------------------------------------------------------

  predicate IsUnit(u: int) {
    0 <= u < 0x1_0000
  }

  predicate AllUnits(us: seq<int>) {
    forall i :: 0 <= i < |us| ==> IsUnit(us[i])
  }

  /** The UTF-16 code units of a character: the character itself below
      U+10000, else a high and a low surrogate. */
  function CharUnits(c: char): (us: seq<int>)
    ensures AllUnits(us) && 1 <= |us| <= 2
    ensures c != 0 as char ==> 0 !in us
  {
    var n := c as int;
    if n < 0x1_0000 then [n]
    else [0xD800 + (n - 0x1_0000) / 0x400, 0xDC00 + (n - 0x1_0000) % 0x400]
  }

  /** The code units of a string, character by character. */
  function Units(s: string): (us: seq<int>)
    ensures AllUnits(us)
    ensures s != [] ==> us != []
  {
    if s == [] then [] else CharUnits(s[0]) + Units(s[1..])
  }

  /** A string without NUL characters has no zero unit. */
  lemma {:induction false} UnitsNonZero(s: string)
    requires 0 as char !in s
    ensures 0 !in Units(s)
  {
    if s != [] {
      assert s[0] != 0 as char;
      assert 0 as char !in s[1..];
      UnitsNonZero(s[1..]);
    }
  }

  /** Reading code units back into characters; a surrogate without its
      partner is an error. */
  function DecodeUnits(us: seq<int>): Option<string>
    decreases |us|
  {
    if us == [] then Some([])
    else
      var u := us[0];
      if 0xD800 <= u < 0xDC00 then
        if |us| >= 2 && 0xDC00 <= us[1] < 0xE000 then
          var n := 0x1_0000 + (u - 0xD800) * 0x400 + (us[1] - 0xDC00);
          match DecodeUnits(us[2..])
          case None => None
          case Some(rest) => Some([n as char] + rest)
        else None
      else if 0xDC00 <= u < 0xE000 || !IsUnit(u) then None
      else
        match DecodeUnits(us[1..])
        case None => None
        case Some(rest) => Some([u as char] + rest)
  }

  /** Decoding undoes the units of one character. */
  lemma DecodeCharUnits(c: char, rest: seq<int>)
    ensures DecodeUnits(CharUnits(c) + rest) ==
            match DecodeUnits(rest) case None => None case Some(t) => Some([c] + t)
  {
    var n := c as int;
    var us := CharUnits(c) + rest;
    if n < 0x1_0000 {
      assert us[1..] == rest;
    } else {
      var m := n - 0x1_0000;
      assert m == (m / 0x400) * 0x400 + m % 0x400;
      assert us[2..] == rest;
    }
  }

  /** Every string reads back from its code units. */
  lemma {:induction false} UnitsRoundTrip(s: string)
    ensures DecodeUnits(Units(s)) == Some(s)
  {
    if s != [] {
      UnitsRoundTrip(s[1..]);
      DecodeCharUnits(s[0], Units(s[1..]));
      assert s == [s[0]] + s[1..];
    }
  }

  // ---------------------------------------------------------------------------
  // Little-endian bytes
  // ---------------------------------------------------------------------------

  /** Code units as little-endian byte pairs. */
  function UnitsBytes(us: seq<int>): (bs: seq<byte>)
    requires AllUnits(us)
    ensures |bs| == 2 * |us|
  {
    if us == [] then []
    else [(us[0] % 256) as byte, (us[0] / 256) as byte] + UnitsBytes(us[1..])
  }

  /** A string encoded as UTF-16LE. */
  function Utf16Le(s: string): seq<byte> {
    UnitsBytes(Units(s))
  }

  lemma {:induction false} UnitsBytesConcat(a: seq<int>, b: seq<int>)
    requires AllUnits(a) && AllUnits(b)
    ensures AllUnits(a + b) && UnitsBytes(a + b) == UnitsBytes(a) + UnitsBytes(b)
  {
    if a != [] {
      assert (a + b)[1..] == a[1..] + b;
      UnitsBytesConcat(a[1..], b);
    } else {
      assert a + b == b;
    }
  }

  /** Byte pairs read as little-endian code units; an odd byte is an error. */
  function BytesUnits(bs: seq<byte>): Option<seq<int>>
    decreases |bs|
  {
    if bs == [] then Some([])
    else if |bs| == 1 then None
    else
      match BytesUnits(bs[2..])
      case None => None
      case Some(rest) => Some([bs[0] as int + 256 * bs[1] as int] + rest)
  }

  lemma {:induction false} BytesRoundTrip(us: seq<int>)
    requires AllUnits(us)
    ensures BytesUnits(UnitsBytes(us)) == Some(us)
  {
    if us != [] {
      var bs := UnitsBytes(us);
      assert bs[2..] == UnitsBytes(us[1..]);
      BytesRoundTrip(us[1..]);
      assert us == [us[0]] + us[1..];
    }
  }

  /** UTF-16LE decoding undoes str.encode('utf-16le'). */
  lemma Utf16LeRoundTrip(s: string)
    ensures BytesUnits(Utf16Le(s)).Some? && DecodeUnits(BytesUnits(Utf16Le(s)).value) == Some(s)
  {
    BytesRoundTrip(Units(s));
    UnitsRoundTrip(s);
  }

  // ---------------------------------------------------------------------------
  // FileNameW: the NUL-terminated list of wide path names
  // ---------------------------------------------------------------------------

  /** For each name its UTF-16LE bytes and a two-byte zero terminator, then
      one more two-byte zero that ends the list. */
  function FileNameW(paths: seq<string>): (bs: seq<byte>)
    ensures |bs| >= 2 && bs[|bs| - 2..] == [0, 0]
  {
    if paths == [] then [0, 0]
    else
      var rest := FileNameW(paths[1..]);
      var bs := Utf16Le(paths[0]) + [0, 0] + rest;
      assert bs[|bs| - 2..] == rest[|rest| - 2..];
      bs
  }

  /** The same list as code units: each name, a zero unit after each, and a
      final zero unit. */
  function ListUnits(paths: seq<string>): (us: seq<int>)
    ensures AllUnits(us)
  {
    if paths == [] then [0] else Units(paths[0]) + [0] + ListUnits(paths[1..])
  }

  lemma {:induction false} FileNameWUnits(paths: seq<string>)
    ensures FileNameW(paths) == UnitsBytes(ListUnits(paths))
  {
    if paths != [] {
      FileNameWUnits(paths[1..]);
      var a := Units(paths[0]);
      var rest := ListUnits(paths[1..]);
      assert UnitsBytes([0]) == [0, 0];
      UnitsBytesConcat(a, [0]);
      UnitsBytesConcat(a + [0], rest);
      assert ListUnits(paths) == (a + [0]) + rest;
      assert UnitsBytes(ListUnits(paths)) == Utf16Le(paths[0]) + [0, 0] + UnitsBytes(rest);
    } else {
      assert UnitsBytes([0]) == [0, 0];
    }
  }

  /** The position of the first zero unit. */
  function ZeroIndex(us: seq<int>): (r: Option<nat>)
    ensures r.Some? ==> r.value < |us| && us[r.value] == 0 && 0 !in us[..r.value]
    ensures r.None? ==> 0 !in us
  {
    if us == [] then None
    else if us[0] == 0 then Some(0)
    else
      match ZeroIndex(us[1..])
      case None => None
      case Some(i) =>
        assert us[..i + 1] == [us[0]] + us[1..][..i];
        Some(i + 1)
  }

  lemma {:induction false} ZeroIndexAfter(a: seq<int>, b: seq<int>)
    requires 0 !in a
    ensures ZeroIndex(a + [0] + b) == Some(|a|)
  {
    if a != [] {
      assert (a + [0] + b)[1..] == a[1..] + [0] + b;
      ZeroIndexAfter(a[1..], b);
    }
  }

  /** How a receiving program reads the list: names up to each zero unit,
      until an empty name; anything after that terminator is an error. */
  function ParseList(us: seq<int>): Option<seq<string>>
    decreases |us|
  {
    match ZeroIndex(us)
    case None => None
    case Some(i) =>
      if i == 0 then (if |us| == 1 then Some([]) else None)
      else
        match DecodeUnits(us[..i])
        case None => None
        case Some(name) =>
          match ParseList(us[i + 1..])
          case None => None
          case Some(names) => Some([name] + names)
  }

  /** Reading the FileNameW bytes. */
  function ParseFileNameW(bs: seq<byte>): Option<seq<string>> {
    match BytesUnits(bs)
    case None => None
    case Some(us) => ParseList(us)
  }

  /** The names a drag can carry: non-empty, without NUL characters. */
  predicate PlainNames(paths: seq<string>) {
    forall i :: 0 <= i < |paths| ==> paths[i] != [] && 0 as char !in paths[i]
  }

  /** Reading one name off the front of a list. */
  lemma ParseListStep(a: seq<int>, rest: seq<int>)
    requires a != [] && 0 !in a
    ensures ParseList(a + [0] + rest) ==
            match DecodeUnits(a)
            case None => None
            case Some(name) =>
              match ParseList(rest)
              case None => None
              case Some(names) => Some([name] + names)
  {
    var us := a + [0] + rest;
    ZeroIndexAfter(a, rest);
    assert us[..|a|] == a;
    assert us[|a| + 1..] == rest;
  }

  lemma PlainNamesTail(paths: seq<string>)
    requires PlainNames(paths) && paths != []
    ensures PlainNames(paths[1..]) && paths[0] != [] && 0 as char !in paths[0]
  {
    forall i | 0 <= i < |paths[1..]| ensures paths[1..][i] != [] && 0 as char !in paths[1..][i] {
      assert paths[1..][i] == paths[i + 1];
    }
  }

  lemma {:induction false} ListRoundTrip(paths: seq<string>)
    requires PlainNames(paths)
    ensures ParseList(ListUnits(paths)) == Some(paths)
  {
    if paths != [] {
      var a := Units(paths[0]);
      PlainNamesTail(paths);
      UnitsNonZero(paths[0]);
      ParseListStep(a, ListUnits(paths[1..]));
      UnitsRoundTrip(paths[0]);
      ListRoundTrip(paths[1..]);
      assert paths == [paths[0]] + paths[1..];
    }
  }

  /** FileNameW loses nothing: the reader gets back exactly the dragged
      names, in order. */
  lemma FileNameWRoundTrip(paths: seq<string>)
    requires PlainNames(paths)
    ensures ParseFileNameW(FileNameW(paths)) == Some(paths)
  {
    FileNameWUnits(paths);
    BytesRoundTrip(ListUnits(paths));
    ListRoundTrip(paths);
  }

  /** So two different lists of names never give the same bytes. */
  lemma FileNameWInjective(a: seq<string>, b: seq<string>)
    requires PlainNames(a) && PlainNames(b) && FileNameW(a) == FileNameW(b)
    ensures a == b
  {
    FileNameWRoundTrip(a);
    FileNameWRoundTrip(b);
  }

  // ---------------------------------------------------------------------------
  // CF_HDROP: a DROPFILES header, then the FileNameW list
  // ---------------------------------------------------------------------------

  /** An unsigned 32-bit value, little-endian (struct format <I). */
  function U32Le(n: int): (bs: seq<byte>)
    requires 0 <= n < 0x1_0000_0000
    ensures |bs| == 4
  {
    var q1 := n / 0x100;
    var q2 := q1 / 0x100;
    [(n % 0x100) as byte, (q1 % 0x100) as byte, (q2 % 0x100) as byte, (q2 / 0x100) as byte]
  }

  /** A signed 32-bit value, little-endian two's complement (struct format <i). */
  function I32Le(n: int): (bs: seq<byte>)
    requires -0x8000_0000 <= n < 0x8000_0000
    ensures |bs| == 4
  {
    U32Le(if n < 0 then n + 0x1_0000_0000 else n)
  }

  /** The 32-bit unsigned little-endian value at an offset. */
  function ReadU32(bs: seq<byte>, at: nat): int
    requires at + 4 <= |bs|
  {
    bs[at] as int + 0x100 * bs[at + 1] as int + 0x1_0000 * bs[at + 2] as int + 0x100_0000 * bs[at + 3] as int
  }

  /** The 32-bit signed little-endian value at an offset. */
  function ReadI32(bs: seq<byte>, at: nat): int
    requires at + 4 <= |bs|
  {
    var u := ReadU32(bs, at);
    if u >= 0x8000_0000 then u - 0x1_0000_0000 else u
  }

  lemma U32RoundTrip(n: int, rest: seq<byte>)
    requires 0 <= n < 0x1_0000_0000
    ensures ReadU32(U32Le(n) + rest, 0) == n
  {
    var b := U32Le(n) + rest;
    var q1 := n / 0x100;
    var q2 := q1 / 0x100;
    assert b[0] as int == n % 0x100 && b[1] as int == q1 % 0x100;
    assert b[2] as int == q2 % 0x100 && b[3] as int == q2 / 0x100;
    assert n == n % 0x100 + 0x100 * q1;
    assert q1 == q1 % 0x100 + 0x100 * q2;
    assert q2 == q2 % 0x100 + 0x100 * (q2 / 0x100);
  }

  lemma I32RoundTrip(n: int, rest: seq<byte>)
    requires -0x8000_0000 <= n < 0x8000_0000
    ensures ReadI32(I32Le(n) + rest, 0) == n
  {
    U32RoundTrip(if n < 0 then n + 0x1_0000_0000 else n, rest);
  }

  /** The size of DROPFILES, and so the offset of the names. */
  const DropFilesSize := 20

  /** The DROPFILES header packed little-endian as <IiiII: the offset of the
      names, the drop point x and y, the client-area flag, the wide flag. */
  function DropHeader(pFiles: int, x: int, y: int, fNC: int, fWide: int): (bs: seq<byte>)
    requires 0 <= pFiles < 0x1_0000_0000 && 0 <= fNC < 0x1_0000_0000 && 0 <= fWide < 0x1_0000_0000
    requires -0x8000_0000 <= x < 0x8000_0000 && -0x8000_0000 <= y < 0x8000_0000
    ensures |bs| == DropFilesSize
  {
    U32Le(pFiles) + I32Le(x) + I32Le(y) + U32Le(fNC) + U32Le(fWide)
  }

  /** The CF_HDROP block of a drag: names at offset 20, drop point (0, 0),
      client-area flag 0, wide names. */
  function CfHdrop(paths: seq<string>): seq<byte> {
    DropHeader(DropFilesSize, 0, 0, 0, 1) + FileNameW(paths)
  }

  /** The header is the twenty bytes 20 0 0 0, twelve zeros, 1 0 0 0. */
  lemma DropHeaderBytes()
    ensures DropHeader(DropFilesSize, 0, 0, 0, 1) ==
            [20, 0, 0, 0, 0, 0, 0, 0, 0, 0, 0, 0, 0, 0, 0, 0, 1, 0, 0, 0]
  {
  }

  /** A DROPFILES block as a receiving program reads it. */
  datatype DropFiles = DropFiles(x: int, y: int, clientArea: bool, names: seq<string>)

  /** Reading a DROPFILES block: the header fields, then the wide names at
      the offset the header gives; narrow names are not read here. */
  function ParseDropFiles(bs: seq<byte>): Option<DropFiles> {
    if |bs| < DropFilesSize then None
    else
      var pFiles := ReadU32(bs, 0);
      var wide := ReadU32(bs, 16);
      if wide == 0 || pFiles < DropFilesSize || pFiles > |bs| then None
      else
        match ParseFileNameW(bs[pFiles..])
        case None => None
        case Some(names) => Some(DropFiles(ReadI32(bs, 4), ReadI32(bs, 8), ReadU32(bs, 12) != 0, names))
  }

  /** The fields of the header as the reader sees them. */
  lemma DropHeaderFields(rest: seq<byte>)
    ensures var bs := DropHeader(DropFilesSize, 0, 0, 0, 1) + rest;
            ReadU32(bs, 0) == DropFilesSize && ReadI32(bs, 4) == 0 && ReadI32(bs, 8) == 0 &&
            ReadU32(bs, 12) == 0 && ReadU32(bs, 16) == 1
  {
    var h := DropHeader(DropFilesSize, 0, 0, 0, 1);
    DropHeaderBytes();
    var bs := h + rest;
    assert bs[0] == 20 && bs[16] == 1;
    assert forall i :: 1 <= i < 16 ==> bs[i] == h[i] == 0;
    assert bs[17] == 0 && bs[18] == 0 && bs[19] == 0;
  }

  /** The CF_HDROP block carries exactly the dragged names, dropped at the
      origin, outside the client area. */
  lemma CfHdropRoundTrip(paths: seq<string>)
    requires PlainNames(paths)
    ensures ParseDropFiles(CfHdrop(paths)) == Some(DropFiles(0, 0, false, paths))
  {
    var h := DropHeader(DropFilesSize, 0, 0, 0, 1);
    var bs := h + FileNameW(paths);
    DropHeaderFields(FileNameW(paths));
    assert bs[DropFilesSize..] == FileNameW(paths);
    FileNameWRoundTrip(paths);
  }
}
