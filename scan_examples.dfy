/** Worked examples of the directory scan on small listings. */
module ScanExamples {
  import opened Common
  import opened Classify
  import opened Frames
  import opened Assets
  import opened Search

  const Shot1: string := "shot.0001.exr"
  const Plate001: string := "plate_001.png"

  lemma ParseShot1()
    ensures ParseFrame(Shot1) == Some(FrameName("shot", '.', "0001", ".exr"))
  {
    var k := FrameName("shot", '.', "0001", ".exr");
    assert Shot1 == k.base + [k.sep] + k.digits + k.ext;
    ParseFrameComplete(Shot1, k);
  }

  lemma ParsePlate001()
    ensures ParseFrame(Plate001) == Some(FrameName("plate", '_', "001", ".png"))
  {
    var k := FrameName("plate", '_', "001", ".png");
    assert Plate001 == k.base + [k.sep] + k.digits + k.ext;
    ParseFrameComplete(Plate001, k);
  }

  /** "0001" and "001" both read as frame 1. */
  lemma FrameNumbers()
    ensures FrameNumber(FrameName("shot", '.', "0001", ".exr")) == 1
    ensures FrameNumber(FrameName("plate", '_', "001", ".png")) == 1
  {
    assert "0001"[..3] == "000" && "001"[..2] == "00";
    assert "000"[..2] == "00" && "00"[..1] == "0" && "0"[..0] == "";
  }

  /** Frame numbers are padded to four digits and never cut. */
  lemma Padding()
    ensures ZeroPadded(1, 4) == "0001" && ZeroPadded(5, 4) == "0005"
    ensures ZeroPadded(12345, 4) == "12345"
  {
    assert NatToDecimal(1) == "1" && NatToDecimal(5) == "5";
    assert Zeros(3) == "000";
    assert NatToDecimal(12) == "12" && NatToDecimal(123) == "123" && NatToDecimal(1234) == "1234";
  }

  /** The display name of frames 1 to 5 of shot.####.exr. */
  lemma DisplayName()
    ensures SequenceName("shot", 1, 5, ".exr") == "shot[0001-0005].exr"
  {
    Padding();
  }

  /** The extremes of a two-frame list. */
  lemma PairExtremes(x: Frame, y: Frame)
    ensures MinFrame([x, y]) == if FrameLeq(x, y) then x else y
    ensures MaxNumber([x, y]) == if x.number >= y.number then x.number else y.number
  {
    assert [x, y][1..] == [y];
  }

  /** Two frame files of one sequence. */
  predicate Pair(a: string, b: string) {
    ParseFrame(a).Some? && ParseFrame(b).Some? && SameSequence(ParseFrame(a).value, ParseFrame(b).value)
  }

  lemma PairGroup(dir: string, a: string, b: string)
    requires Pair(a, b)
    ensures Group(dir, [a, b], ParseFrame(a).value) == [FrameOf(dir, a), FrameOf(dir, b)]
  {
    var ka := ParseFrame(a).value;
    assert InGroup(a, ka) && InGroup(b, ka);
    GroupPair(dir, a, b, ka);
  }

  lemma GroupPair(dir: string, a: string, b: string, key: FrameName)
    requires InGroup(a, key) && InGroup(b, key)
    ensures Group(dir, [a, b], key) == [FrameOf(dir, a), FrameOf(dir, b)]
  {
    var one: seq<string> := [a];
    var two: seq<string> := [a, b];
    assert two == one + [b];
    assert one == [] + [a];
    GroupSnoc(dir, [], a, key);
    GroupSnoc(dir, one, b, key);
  }

  /** A frame file of the sequence appended to the listing adds its tuple. */
  lemma GroupSnoc(dir: string, images: seq<string>, x: string, key: FrameName)
    requires InGroup(x, key)
    ensures Group(dir, images + [x], key) == Group(dir, images, key) + [FrameOf(dir, x)]
  {
    assert (images + [x])[..|images|] == images;
  }

  lemma PairFirst(dir: string, a: string, b: string, ctime: string -> int, hash: string -> string)
    requires Pair(a, b)
    ensures Group(dir, [a, b], ParseFrame(a).value) != []
    ensures ImageEntryAt(dir, [a, b], 0, ctime, hash) == [SequenceEntry(dir, [a, b], ParseFrame(a).value, ctime, hash)]
  {
    PairGroup(dir, a, b);
    assert !GroupedBefore([a, b], 0, 0);
  }

  lemma PairSecond(dir: string, a: string, b: string, ctime: string -> int, hash: string -> string)
    requires Pair(a, b)
    ensures ImageEntryAt(dir, [a, b], 1, ctime, hash) == []
  {
    assert InGroup([a, b][0], ParseFrame(b).value);
    assert GroupedBefore([a, b], 1, 1);
  }

  /** Two frame files of one sequence: the first yields the record of both,
      the second nothing. */
  lemma PairSequence(dir: string, a: string, b: string, ctime: string -> int, hash: string -> string)
    requires Pair(a, b)
    ensures Group(dir, [a, b], ParseFrame(a).value) == [FrameOf(dir, a), FrameOf(dir, b)]
    ensures ImageEntries(dir, [a, b], 2, ctime, hash) == [SequenceEntry(dir, [a, b], ParseFrame(a).value, ctime, hash)]
  {
    assert ImageEntries(dir, [a, b], 1, ctime, hash) == ImageEntryAt(dir, [a, b], 0, ctime, hash);
    PairGroup(dir, a, b);
    PairFirst(dir, a, b, ctime, hash);
    PairSecond(dir, a, b, ctime, hash);
  }

  /** Any two frame files of one sequence, whatever their numbers, make one
      record of type sequence that counts both: a gap between the numbers
      does not split it and an equal number does not merge the files. Its
      range runs from the smaller number to the larger and its path is that
      of the smaller (number, name) tuple. */
  lemma PairRecord(dir: string, a: string, b: string, ctime: string -> int, hash: string -> string)
    requires Pair(a, b)
    ensures var na := FrameNumber(ParseFrame(a).value);
            var nb := FrameNumber(ParseFrame(b).value);
            var es := ImageEntries(dir, [a, b], 2, ctime, hash);
            && |es| == 1
            && es[0].1.kind == Sequence(2, if na <= nb then na else nb, if na <= nb then nb else na)
            && es[0].1.path == (if FrameLeq(FrameOf(dir, a), FrameOf(dir, b)) then Join(dir, a) else Join(dir, b))
            && es[0].0 == hash(es[0].1.path)
  {
    PairSequence(dir, a, b, ctime, hash);
    PairExtremes(FrameOf(dir, a), FrameOf(dir, b));
  }

  /** Two digits are too few. */
  lemma TooFewDigits()
    ensures ParseFrame("shot.01.exr").None?
  {
    assert "shot.01.exr" == "shot.01" + ".exr";
    ExtLastDot("shot.01", ".exr");
    assert "shot.01" == "shot" + ['.'] + "01";
    DigitRunAfter("shot", '.', "01");
    ConcatParts("shot.01.exr", "shot.01", ".exr");
  }

  /** A video in the library root "D:/" is stored as "D:/a.mov", with no
      doubled separator, and one in "D:/shots" as "D:/shots/a.mov". */
  lemma RootVideo(ctime: string -> int, hash: string -> string)
    ensures VideoEntry("D:/", "a.mov", ctime, hash) == (hash("D:/a.mov"), Asset(ctime("D:/a.mov"), "D:/a.mov", "a.mov", Video))
    ensures VideoEntry("D:/shots", "a.mov", ctime, hash).1.path == "D:/shots/a.mov"
  {
    assert Join("D:/", "a.mov") == "D:/a.mov";
    assert Join("D:/shots", "a.mov") == "D:/shots/a.mov";
  }
}
