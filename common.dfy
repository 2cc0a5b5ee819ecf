/** Small value types and string helpers shared by the whole model:
    an Option type, ASCII case folding, suffix and substring tests,
    '/'-separated path joining, splitting and dirname, and base-10 digits. */
module Common {

  datatype Option<+T> = None | Some(value: T)

  /** A list without repeated members. */
  predicate NoDup(s: seq<string>) {
    forall i, j :: 0 <= i < j < |s| ==> s[i] != s[j]
  }

  /** The members of a list, as a set. */
  function Elements(s: seq<string>): (r: set<string>)
    ensures forall x :: x in r <==> x in s
  {
    if s == [] then {} else {s[0]} + Elements(s[1..])
  }

  /** A duplicate-free list has as many members as elements. */
  lemma {:induction false} ElementsCount(s: seq<string>)
    requires NoDup(s)
    ensures |Elements(s)| == |s|
  {
    if s != [] {
      ElementsCount(s[1..]);
      assert s[0] !in s[1..];
    }
  }

  // ---------------------------------------------------------------------------
  // Characters and case folding
  // ---------------------------------------------------------------------------

  /** str.lower() restricted to ASCII letters. */
  function LowerChar(c: char): char {
    if 'A' <= c <= 'Z' then (c as int + 32) as char else c
  }

  function Lower(s: string): (r: string)
    ensures |r| == |s|
    ensures forall i :: 0 <= i < |s| ==> r[i] == LowerChar(s[i])
  {
    if s == [] then [] else [LowerChar(s[0])] + Lower(s[1..])
  }

  predicate EndsWith(s: string, suffix: string) {
    |suffix| <= |s| && s[|s| - |suffix|..] == suffix
  }

  /** str.endswith(tuple): true when some suffix of the tuple ends s. */
  predicate EndsWithAny(s: string, suffixes: seq<string>) {
    exists i :: 0 <= i < |suffixes| && EndsWith(s, suffixes[i])
  }

  /** `needle in haystack` for strings. */
  predicate Contains(haystack: string, needle: string) {
    exists i :: 0 <= i <= |haystack| - |needle| && OccursAt(haystack, needle, i)
  }

  predicate OccursAt(haystack: string, needle: string, i: nat)
    requires i <= |haystack| - |needle|
  {
    haystack[i..i + |needle|] == needle
  }

  /** Two suffixes of the same string: the shorter one is a suffix of the longer one. */
  lemma SuffixOfSuffix(s: string, a: string, b: string)
    requires EndsWith(s, a) && EndsWith(s, b) && |a| <= |b|
    ensures EndsWith(b, a)
  {
    assert b[|b| - |a|..] == s[|s| - |a|..];
  }

  // ---------------------------------------------------------------------------
  // '/'-separated paths
  // ---------------------------------------------------------------------------

  /** posixpath.join(dir, name) for a name that does not start with '/':
      a separator goes in between unless dir is empty or already ends in one. */
  function Join(dir: string, name: string): string {
    if dir == [] || dir[|dir| - 1] == '/' then dir + name else dir + "/" + name
  }

  /** The directory as it appears before the last '/' of a path joined
      below it: without its one trailing '/', if it has one. */
  function Folder(dir: string): (r: string)
    ensures |r| <= |dir| && r == dir[..|r|]
  {
    if dir != [] && dir[|dir| - 1] == '/' then dir[..|dir| - 1] else dir
  }

  /** Index of the last occurrence of c in s. */
  function LastIndexOf(s: string, c: char): (r: Option<nat>)
    ensures r.Some? ==> r.value < |s| && s[r.value] == c && c !in s[r.value + 1..]
    ensures r.None? ==> c !in s
  {
    if s == [] then None
    else if s[|s| - 1] == c then Some(|s| - 1)
    else
      var r := LastIndexOf(s[..|s| - 1], c);
      assert s == s[..|s| - 1] + [s[|s| - 1]];
      r
  }

  predicate AllSlashes(s: string) {
    forall i :: 0 <= i < |s| ==> s[i] == '/'
  }

  function TrimTrailingSlashes(s: string): (r: string)
    ensures |r| <= |s| && r == s[..|r|]
    ensures r == [] || r[|r| - 1] != '/'
  {
    if s != [] && s[|s| - 1] == '/' then TrimTrailingSlashes(s[..|s| - 1]) else s
  }

  /** posixpath.dirname: the head up to the last '/', with trailing slashes
      stripped unless the head consists of slashes only. */
  function Dirname(p: string): string {
    var head := match LastIndexOf(p, '/')
                case None => ""
                case Some(i) => p[..i + 1];
    if head != [] && !AllSlashes(head) then TrimTrailingSlashes(head) else head
  }

  /** The last separator of a + [c] + b is the one after a when b has none. */
  lemma {:induction false} LastIndexAfter(a: string, c: char, b: string)
    requires c !in b
    ensures LastIndexOf(a + [c] + b, c) == Some(|a|)
    decreases |b|
  {
    var s := a + [c] + b;
    if b != [] {
      assert s[..|s| - 1] == a + [c] + b[..|b| - 1];
      assert s[|s| - 1] == b[|b| - 1];
      LastIndexAfter(a, c, b[..|b| - 1]);
    }
  }

  /** Dirname undoes Join when the directory is a normal path (non-empty,
      no trailing '/') and the name is a plain file name (no '/'). */
  lemma DirnameOfJoin(dir: string, name: string)
    requires dir != [] && dir[|dir| - 1] != '/'
    requires '/' !in name
    ensures Dirname(Join(dir, name)) == dir
  {
    var p := Join(dir, name);
    assert p == dir + ['/'] + name;
    LastIndexAfter(dir, '/', name);
    var head := p[..|dir| + 1];
    assert head == dir + "/";
    assert head[|dir| - 1] != '/';
    assert !AllSlashes(head);
    assert head[..|head| - 1] == dir;
    assert TrimTrailingSlashes(dir) == dir;
    assert TrimTrailingSlashes(head) == dir;
  }

  /** The directory part of a joined path: everything before its last '/'. */
  function ParentOf(p: string): (r: Option<string>)
    ensures r.Some? ==> |r.value| < |p| && r.value == p[..|r.value|]
  {
    match LastIndexOf(p, '/')
    case None => None
    case Some(i) => Some(p[..i])
  }

  /** A plain file name joined below a non-empty directory has that
      directory, less a trailing '/', as parent; below the empty directory
      it has none. */
  lemma ParentOfJoin(dir: string, name: string)
    requires '/' !in name
    ensures ParentOf(Join(dir, name)) == if dir == [] then None else Some(Folder(dir))
  {
    if dir != [] {
      var f := Folder(dir);
      assert Join(dir, name) == f + ['/'] + name;
      LastIndexAfter(f, '/', name);
      assert Join(dir, name)[..|f|] == f;
    }
  }

  /** Below one directory, different names give different paths. */
  lemma JoinSameDir(dir: string, a: string, b: string)
    requires Join(dir, a) == Join(dir, b)
    ensures a == b
  {
    var n := |Join(dir, a)| - |a|;
    assert a == Join(dir, a)[n..];
    assert b == Join(dir, b)[n..];
  }

  /** str.split(sep): the pieces between separators, in order. */
  function Split(s: string, sep: char): (r: seq<string>)
    ensures |r| >= 1
    ensures forall i :: 0 <= i < |r| ==> sep !in r[i]
    decreases |s|
  {
    if sep !in s then [s]
    else
      var i := FirstIndexOf(s, sep);
      [s[..i]] + Split(s[i + 1..], sep)
  }

  function FirstIndexOf(s: string, c: char): (r: nat)
    requires c in s
    ensures r < |s| && s[r] == c && c !in s[..r]
  {
    if s[0] == c then 0
    else
      assert s == [s[0]] + s[1..];
      1 + FirstIndexOf(s[1..], c)
  }

  /** The pieces joined back with the separator. */
  function JoinWith(pieces: seq<string>, sep: char): string
    requires |pieces| >= 1
  {
    if |pieces| == 1 then pieces[0] else pieces[0] + [sep] + JoinWith(pieces[1..], sep)
  }

  /** Splitting loses nothing: the pieces joined with the separator are the input. */
  lemma {:induction false} SplitJoin(s: string, sep: char)
    ensures JoinWith(Split(s, sep), sep) == s
    decreases |s|
  {
    if sep in s {
      var i := FirstIndexOf(s, sep);
      SplitJoin(s[i + 1..], sep);
      assert s == s[..i] + [sep] + s[i + 1..];
    }
  }

  /** The first separator of a + t is the first one of a, when a has one. */
  lemma {:induction false} FirstIndexWithin(a: string, t: string, c: char)
    requires c in a
    ensures c in a + t && FirstIndexOf(a + t, c) == FirstIndexOf(a, c)
  {
    if a[0] != c {
      assert (a + t)[1..] == a[1..] + t;
      FirstIndexWithin(a[1..], t, c);
    }
  }

  /** The first separator of a + [c] + b is the one after a when a has none. */
  lemma {:induction false} FirstIndexAfter(a: string, c: char, b: string)
    requires c !in a
    ensures c in a + [c] + b && FirstIndexOf(a + [c] + b, c) == |a|
  {
    var s := a + [c] + b;
    assert s[|a|] == c;
    if a != [] {
      assert s[1..] == a[1..] + [c] + b;
      FirstIndexAfter(a[1..], c, b);
    }
  }

  /** Splitting a concatenation around one separator splits both sides. */
  lemma {:induction false} SplitAround(a: string, sep: char, b: string)
    ensures Split(a + [sep] + b, sep) == Split(a, sep) + Split(b, sep)
    decreases |a|
  {
    var s := a + [sep] + b;
    if sep in a {
      var j := FirstIndexOf(a, sep);
      FirstIndexWithin(a, [sep] + b, sep);
      assert s == a + ([sep] + b);
      assert s[..j] == a[..j];
      assert s[j + 1..] == a[j + 1..] + [sep] + b;
      SplitAround(a[j + 1..], sep, b);
    } else {
      FirstIndexAfter(a, sep, b);
      assert s[..|a|] == a;
      assert s[|a| + 1..] == b;
    }
  }

  /** The segment test `segment in path.split('/')`. */
  predicate HasSegment(path: string, segment: string) {
    segment in Split(path, '/')
  }

  /** A directory whose path has a given segment passes it on to every
      file or directory joined below it, however deep. */
  lemma SegmentInherited(dir: string, name: string, segment: string)
    requires segment != [] && HasSegment(dir, segment)
    ensures HasSegment(Join(dir, name), segment)
  {
    var f := Folder(dir);
    if f == dir {
      assert dir != [];
      assert Join(dir, name) == dir + ['/'] + name;
      SplitAround(dir, '/', name);
    } else {
      assert dir == f + ['/'] + [];
      SplitAround(f, '/', []);
      assert Split([], '/') == [[]];
      assert Join(dir, name) == f + ['/'] + name;
      SplitAround(f, '/', name);
    }
  }

  // ---------------------------------------------------------------------------
  // Base-10 digits
  // ---------------------------------------------------------------------------

  predicate IsDigit(c: char) {
    '0' <= c <= '9'
  }

  predicate AllDigits(s: string) {
    forall i :: 0 <= i < |s| ==> IsDigit(s[i])
  }

  function DigitValue(c: char): nat
    requires IsDigit(c)
  {
    c as int - '0' as int
  }

  function DigitChar(d: nat): (c: char)
    requires d < 10
    ensures IsDigit(c) && DigitValue(c) == d
  {
    ('0' as int + d) as char
  }

  /** int(s) for a string of ASCII digits. */
  function DecimalValue(s: string): nat
    requires AllDigits(s)
  {
    if s == [] then 0 else 10 * DecimalValue(s[..|s| - 1]) + DigitValue(s[|s| - 1])
  }

  /** str(n) for a natural number: its shortest decimal spelling. */
  function NatToDecimal(n: nat): (r: string)
    ensures AllDigits(r) && |r| >= 1
    ensures |r| > 1 ==> r[0] != '0'
  {
    if n < 10 then [DigitChar(n)]
    else
      var r := NatToDecimal(n / 10) + [DigitChar(n % 10)];
      assert r[0] == NatToDecimal(n / 10)[0];
      r
  }

  lemma {:induction false} DecimalRoundTrip(n: nat)
    ensures DecimalValue(NatToDecimal(n)) == n
  {
    if n >= 10 {
      var r := NatToDecimal(n);
      assert r[..|r| - 1] == NatToDecimal(n / 10);
      DecimalRoundTrip(n / 10);
    }
  }

  function Zeros(k: nat): (r: string)
    ensures |r| == k && AllDigits(r)
    ensures forall i :: 0 <= i < k ==> r[i] == '0'
  {
    if k == 0 then [] else Zeros(k - 1) + ['0']
  }

  /** Leading zeros do not change a decimal value. */
  lemma {:induction false} LeadingZeros(k: nat, s: string)
    requires AllDigits(s)
    ensures AllDigits(Zeros(k) + s) && DecimalValue(Zeros(k) + s) == DecimalValue(s)
    decreases |s|
  {
    var t := Zeros(k) + s;
    if s == [] {
      assert t == Zeros(k);
      ZerosValue(k);
    } else {
      assert t[..|t| - 1] == Zeros(k) + s[..|s| - 1];
      LeadingZeros(k, s[..|s| - 1]);
    }
  }

  lemma {:induction false} ZerosValue(k: nat)
    ensures DecimalValue(Zeros(k)) == 0
  {
    if k > 0 {
      assert Zeros(k)[..k - 1] == Zeros(k - 1);
      ZerosValue(k - 1);
    }
  }

  /** A natural number in decimal, zero-padded to at least width digits. */
  function ZeroPadded(n: nat, width: nat): string {
    var digits := NatToDecimal(n);
    if |digits| >= width then digits else Zeros(width - |digits|) + digits
  }

  /** Zero padding keeps the value readable back, pads to the width, and adds
      only zeros. */
  lemma ZeroPaddedRoundTrip(n: nat, width: nat)
    ensures AllDigits(ZeroPadded(n, width))
    ensures DecimalValue(ZeroPadded(n, width)) == n
    ensures |ZeroPadded(n, width)| == if |NatToDecimal(n)| >= width then |NatToDecimal(n)| else width
  {
    var digits := NatToDecimal(n);
    DecimalRoundTrip(n);
    if |digits| < width {
      LeadingZeros(width - |digits|, digits);
    }
  }
}
