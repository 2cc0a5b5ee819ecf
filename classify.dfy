/** File-name classification of the directory scan (support_files/search.py):
    video and image names by case-insensitive suffix, the frame-file pattern
    `^(.+?)[._](\d{3,6})(\.[^.]+)$`, and the display name of a sequence. */
module Classify {
  import opened Common

  const ImageExts: seq<string> :=
    [".exr", ".dpx", ".tif", ".tiff", ".tga", ".png", ".jpg", ".jpeg", ".bmp", ".webp"]
  const VideoExts: seq<string> :=
    [".mov", ".mp4", ".mkv", ".avi", ".flv", ".wmv", ".webm", ".m4v", ".mts", ".m2ts"]

  /** A video file: its lower-case name ends with one of the video suffixes. */
  predicate IsVideo(name: string) {
    EndsWithAny(Lower(name), VideoExts)
  }

  /** An image file: its lower-case name ends with one of the image suffixes. */
  predicate IsImage(name: string) {
    EndsWithAny(Lower(name), ImageExts)
  }

  lemma LastCharOfSuffix(s: string, suffix: string)
    requires EndsWith(s, suffix) && |suffix| >= 1
    ensures s[|s| - 1] == suffix[|suffix| - 1]
  {
    assert s[|s| - |suffix|..][|suffix| - 1] == s[|s| - 1];
  }

  lemma NotSuffixByLastChar(s: string, suffix: string)
    requires |s| >= 1 && |suffix| >= 1 && s[|s| - 1] != suffix[|suffix| - 1]
    ensures !EndsWith(s, suffix)
  {
    if |suffix| <= |s| {
      assert s[|s| - |suffix|..][|suffix| - 1] == s[|s| - 1];
    }
  }

  /** The last characters of the video suffixes. */
  predicate VideoEnd(c: char) {
    c == 'v' || c == '4' || c == 'i' || c == 'm' || c == 's'
  }

  /** Every video suffix ends in one of these characters ... */
  lemma VideoLastChar(a: nat)
    requires a < |VideoExts|
    ensures |VideoExts[a]| >= 1 && VideoEnd(VideoExts[a][|VideoExts[a]| - 1])
  {
  }

  /** ... and no image suffix does. */
  lemma ImageLastChar(b: nat)
    requires b < |ImageExts|
    ensures |ImageExts[b]| >= 1 && !VideoEnd(ImageExts[b][|ImageExts[b]| - 1])
  {
  }

  /** No name is both a video and an image: every video suffix ends in a
      character that no image suffix ends in. */
  lemma VideoNotImage(name: string)
    ensures IsVideo(name) ==> !IsImage(name)
    ensures IsImage(name) ==> !IsVideo(name)
  {
    if IsVideo(name) {
      NotBoth(Lower(name));
    }
  }

  lemma NotBoth(s: string)
    requires EndsWithAny(s, VideoExts)
    ensures !EndsWithAny(s, ImageExts)
  {
    var a :| 0 <= a < |VideoExts| && EndsWith(s, VideoExts[a]);
    VideoLastChar(a);
    LastCharOfSuffix(s, VideoExts[a]);
    forall b | 0 <= b < |ImageExts|
      ensures !EndsWith(s, ImageExts[b])
    {
      ImageLastChar(b);
      NotSuffixByLastChar(s, ImageExts[b]);
    }
  }

  /** Video and image classification ignore the case of the name. */
  lemma ClassifyIgnoresCase(name: string)
    ensures IsVideo(Lower(name)) == IsVideo(name)
    ensures IsImage(Lower(name)) == IsImage(name)
  {
    assert Lower(Lower(name)) == Lower(name);
  }

  // ---------------------------------------------------------------------------
  // Frame files
  // ---------------------------------------------------------------------------

  /** The three groups of a frame-file match, with the separator between the
      first two. */
  datatype FrameName = FrameName(base: string, sep: char, digits: string, ext: string)

  /** The pattern read declaratively: a non-empty base without a line break
      (what `.` matches), a '.' or '_', three to six ASCII digits, and an
      extension made of a '.' and at least one character that is not '.'. */
  predicate Matches(name: string, f: FrameName) {
    && |f.base| >= 1 && '\n' !in f.base
    && (f.sep == '.' || f.sep == '_')
    && 3 <= |f.digits| <= 6 && AllDigits(f.digits)
    && |f.ext| >= 2 && f.ext[0] == '.' && '.' !in f.ext[1..]
    && name == f.base + [f.sep] + f.digits + f.ext
  }

  /** Length of the run of ASCII digits at the end of s. */
  function DigitRun(s: string): (r: nat)
    ensures r <= |s| && AllDigits(s[|s| - r..])
    ensures r < |s| ==> !IsDigit(s[|s| - r - 1])
  {
    if s == [] || !IsDigit(s[|s| - 1]) then 0
    else
      var init := s[..|s| - 1];
      var r := DigitRun(init);
      assert forall i :: |s| - (r + 1) <= i < |s| - 1 ==> s[i] == init[i];
      r + 1
  }

  /** The frame-file pattern applied to a name: the extension runs from the last '.', and the
      rest must end in a separator and three to six digits after a base. */
  function ParseFrame(name: string): Option<FrameName> {
    match LastIndexOf(name, '.')
    case None => None
    case Some(d) => ParseStem(name[..d], name[d..])
  }

  /** A successful match is a decomposition of the name that fits the pattern. */
  lemma ParseFrameSound(name: string)
    ensures ParseFrame(name).Some? ==> Matches(name, ParseFrame(name).value)
  {
    match LastIndexOf(name, '.')
    case None =>
    case Some(d) =>
      assert name == name[..d] + name[d..] && name[d..][1..] == name[d + 1..];
      if ParseStem(name[..d], name[d..]).Some? {
        ParseStemSound(name[..d], name[d..]);
      }
  }

  /** The match of the text before the last '.' (stem) and from it on (ext). */
  function ParseStem(stem: string, ext: string): (r: Option<FrameName>)
    ensures r.Some? ==> |ext| >= 2 && r.value.ext == ext
  {
    var n := DigitRun(stem);
    if |ext| < 2 || ext[0] != '.' || n < 3 || n > 6 || |stem| < n + 2 then None
    else
      var sep := stem[|stem| - n - 1];
      var base := stem[..|stem| - n - 1];
      if (sep == '.' || sep == '_') && '\n' !in base then
        assert stem == base + [sep] + stem[|stem| - n..];
        Some(FrameName(base, sep, stem[|stem| - n..], ext))
      else None
  }

  /** A stem the pattern accepts, followed by an extension without a further
      dot, is a decomposed frame-file name. */
  lemma ParseStemSound(stem: string, ext: string)
    requires ParseStem(stem, ext).Some? && '.' !in ext[1..]
    ensures Matches(stem + ext, ParseStem(stem, ext).value)
  {
    var n := DigitRun(stem);
    assert stem == stem[..|stem| - n - 1] + [stem[|stem| - n - 1]] + stem[|stem| - n..];
  }

  lemma {:induction false} DigitRunAfter(a: string, c: char, digits: string)
    requires !IsDigit(c) && AllDigits(digits)
    ensures DigitRun(a + [c] + digits) == |digits|
    decreases |digits|
  {
    var s := a + [c] + digits;
    if digits == [] {
      assert s[|s| - 1] == c;
    } else {
      assert s[..|s| - 1] == a + [c] + digits[..|digits| - 1];
      DigitRunAfter(a, c, digits[..|digits| - 1]);
    }
  }

  /** Every way of matching the pattern is the one ParseFrame finds: the
      decomposition is unique, so the lazy base capture has no choice to make. */
  lemma ParseFrameComplete(name: string, f: FrameName)
    requires Matches(name, f)
    ensures ParseFrame(name) == Some(f)
  {
    var d := |f.base| + 1 + |f.digits|;
    FrameLastDot(name, f);
    FrameParts(name, f);
    ParseStemComplete(name[..d], f);
  }

  lemma ParseStemComplete(stem: string, f: FrameName)
    requires |f.base| >= 1 && '\n' !in f.base && (f.sep == '.' || f.sep == '_')
    requires 3 <= |f.digits| <= 6 && AllDigits(f.digits) && |f.ext| >= 2 && f.ext[0] == '.'
    requires stem == f.base + [f.sep] + f.digits
    ensures ParseStem(stem, f.ext) == Some(f)
  {
    DigitRunAfter(f.base, f.sep, f.digits);
    StemParts(stem, f.base, f.sep, f.digits);
    assert DigitRun(stem) == |f.digits| && |stem| >= |f.digits| + 2;
  }

  lemma StemParts(stem: string, base: string, sep: char, digits: string)
    requires stem == base + [sep] + digits
    ensures stem[|stem| - |digits| - 1] == sep
    ensures stem[..|stem| - |digits| - 1] == base
    ensures stem[|stem| - |digits|..] == digits
  {
  }

  /** In a frame-file name the extension starts at the last '.'. */
  lemma FrameLastDot(name: string, f: FrameName)
    requires Matches(name, f)
    ensures LastIndexOf(name, '.') == Some(|f.base| + 1 + |f.digits|)
  {
    ExtLastDot(f.base + [f.sep] + f.digits, f.ext);
  }

  lemma ExtLastDot(stem: string, ext: string)
    requires |ext| >= 1 && ext[0] == '.' && '.' !in ext[1..]
    ensures LastIndexOf(stem + ext, '.') == Some(|stem|)
  {
    assert stem + ext == stem + ['.'] + ext[1..];
    LastIndexAfter(stem, '.', ext[1..]);
  }

  lemma FrameParts(name: string, f: FrameName)
    requires Matches(name, f)
    ensures name[..|f.base| + 1 + |f.digits|] == f.base + [f.sep] + f.digits
    ensures name[|f.base| + 1 + |f.digits|..] == f.ext
  {
    var stem := f.base + [f.sep] + f.digits;
    assert name == stem + f.ext;
    ConcatParts(name, stem, f.ext);
  }

  lemma ConcatParts(s: string, a: string, b: string)
    requires s == a + b
    ensures s[..|a|] == a && s[|a|..] == b
  {
  }

  /** A name is a frame file exactly when some decomposition matches. */
  lemma ParseFrameIff(name: string)
    ensures ParseFrame(name).Some? <==> exists f :: Matches(name, f)
  {
    ParseFrameSound(name);
    if exists f :: Matches(name, f) {
      var f :| Matches(name, f);
      ParseFrameComplete(name, f);
    }
  }

  /** Two frame files belong to the same sequence when base and extension
      agree exactly (case included). */
  predicate SameSequence(a: FrameName, b: FrameName) {
    a.base == b.base && a.ext == b.ext
  }

  /** The integer value of the digit group of a frame file name. */
  function FrameNumber(f: FrameName): (n: nat)
    requires AllDigits(f.digits) && |f.digits| <= 6
    ensures n <= 999999
  {
    DigitsBound(f.digits);
    Pow10Monotone(|f.digits|, 6);
    DecimalValue(f.digits)
  }

  function Pow10(k: nat): nat {
    if k == 0 then 1 else 10 * Pow10(k - 1)
  }

  lemma {:induction false} Pow10Monotone(j: nat, k: nat)
    requires j <= k
    ensures Pow10(j) <= Pow10(k)
    decreases k
  {
    if j < k {
      Pow10Monotone(j, k - 1);
    }
  }

  /** A string of k digits reads as a number below 10^k. */
  lemma {:induction false} DigitsBound(s: string)
    requires AllDigits(s)
    ensures DecimalValue(s) < Pow10(|s|)
  {
    if s != [] {
      DigitsBound(s[..|s| - 1]);
    }
  }

  // ---------------------------------------------------------------------------
  // Sequence display name
  // ---------------------------------------------------------------------------

  /** The display name of a sequence: the base, then the first and last frame
      numbers padded to four digits inside brackets, then the extension. */
  function SequenceName(base: string, first: nat, last: nat, ext: string): string {
    base + "[" + ZeroPadded(first, 4) + "-" + ZeroPadded(last, 4) + "]" + ext
  }

  /** The display name carries both frame numbers, each as at least four
      digits that read back as the number. */
  lemma SequenceNameParts(base: string, first: nat, last: nat, ext: string)
    ensures var a := ZeroPadded(first, 4);
            var b := ZeroPadded(last, 4);
            && SequenceName(base, first, last, ext) == base + "[" + a + "-" + b + "]" + ext
            && |a| >= 4 && |b| >= 4 && AllDigits(a) && AllDigits(b)
            && DecimalValue(a) == first && DecimalValue(b) == last
  {
    ZeroPaddedRoundTrip(first, 4);
    ZeroPaddedRoundTrip(last, 4);
  }

  /** The display name of a sequence is never taken for a frame file itself:
      before its extension comes ']', not a digit. */
  lemma SequenceNameNotFrame(f: FrameName, first: nat, last: nat)
    requires Matches(f.base + [f.sep] + f.digits + f.ext, f)
    ensures ParseFrame(SequenceName(f.base, first, last, f.ext)).None?
  {
    var stem := f.base + "[" + ZeroPadded(first, 4) + "-" + ZeroPadded(last, 4) + "]";
    var name := SequenceName(f.base, first, last, f.ext);
    assert name == stem + f.ext;
    ExtLastDot(stem, f.ext);
    ConcatParts(name, stem, f.ext);
    assert stem[|stem| - 1] == ']';
  }
}
