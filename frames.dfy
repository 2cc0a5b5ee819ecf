/** The frame list of one image sequence (support_files/search.py): tuples
    (frame number, file name, path), ordered as Python orders tuples, and the
    two things the scan reads after sorting them: the first tuple and the
    number of the last one. */
module Frames {

  datatype Frame = Frame(number: nat, file: string, path: string)

  /** Python's `<=` on str: code-point order, a prefix first. */
  predicate StrLeq(a: string, b: string) {
    a == [] || (b != [] && (a[0] < b[0] || (a[0] == b[0] && StrLeq(a[1..], b[1..]))))
  }

  lemma {:induction false} StrLeqTotal(a: string, b: string)
    ensures StrLeq(a, b) || StrLeq(b, a)
  {
    if a != [] && b != [] && a[0] == b[0] {
      StrLeqTotal(a[1..], b[1..]);
    }
  }

  lemma {:induction false} StrLeqTrans(a: string, b: string, c: string)
    requires StrLeq(a, b) && StrLeq(b, c)
    ensures StrLeq(a, c)
  {
    if a != [] && a[0] == b[0] && b[0] == c[0] {
      StrLeqTrans(a[1..], b[1..], c[1..]);
    }
  }

  lemma {:induction false} StrLeqAntisym(a: string, b: string)
    requires StrLeq(a, b) && StrLeq(b, a)
    ensures a == b
  {
    if a != [] {
      StrLeqAntisym(a[1..], b[1..]);
      assert a == [a[0]] + a[1..] && b == [b[0]] + b[1..];
    }
  }

  /** Tuple order on (number, file, path). */
  predicate FrameLeq(x: Frame, y: Frame) {
    x.number < y.number
    || (x.number == y.number
        && ((x.file != y.file && StrLeq(x.file, y.file))
            || (x.file == y.file && StrLeq(x.path, y.path))))
  }

  lemma FrameLeqTotal(x: Frame, y: Frame)
    ensures FrameLeq(x, y) || FrameLeq(y, x)
  {
    StrLeqTotal(x.file, y.file);
    StrLeqTotal(x.path, y.path);
  }

  lemma FrameLeqTrans(x: Frame, y: Frame, z: Frame)
    requires FrameLeq(x, y) && FrameLeq(y, z)
    ensures FrameLeq(x, z)
  {
    if x.number == y.number == z.number {
      if x.file != y.file && y.file != z.file {
        StrLeqTrans(x.file, y.file, z.file);
        if x.file == z.file {
          StrLeqAntisym(x.file, y.file);
        }
      } else if x.file == y.file && y.file == z.file {
        StrLeqTrans(x.path, y.path, z.path);
      }
    }
  }

  lemma FrameLeqAntisym(x: Frame, y: Frame)
    requires FrameLeq(x, y) && FrameLeq(y, x)
    ensures x == y
  {
    if x.file != y.file {
      StrLeqAntisym(x.file, y.file);
    } else {
      StrLeqAntisym(x.path, y.path);
    }
  }

  /** The first entry of the frame list once it is sorted: the least tuple. */
  function MinFrame(g: seq<Frame>): (r: Frame)
    requires g != []
    ensures r in g
    ensures forall x :: x in g ==> FrameLeq(r, x)
  {
    if |g| == 1 then
      FrameLeqTotal(g[0], g[0]);
      g[0]
    else
      var m := MinFrame(g[1..]);
      assert g == [g[0]] + g[1..];
      FrameLeqTotal(g[0], m);
      if FrameLeq(g[0], m) then
        FrameLeqTotal(g[0], g[0]);
        forall x | x in g[1..] ensures FrameLeq(g[0], x) {
          FrameLeqTrans(g[0], m, x);
        }
        g[0]
      else
        m
  }

  /** The frame number of the last entry once the list is sorted: the largest. */
  function MaxNumber(g: seq<Frame>): (r: nat)
    requires g != []
    ensures exists x :: x in g && x.number == r
    ensures forall x :: x in g ==> x.number <= r
  {
    if |g| == 1 then g[0].number
    else
      var m := MaxNumber(g[1..]);
      assert g == [g[0]] + g[1..];
      if g[0].number >= m then g[0].number else m
  }

  predicate Sorted(s: seq<Frame>) {
    forall i, j :: 0 <= i < j < |s| ==> FrameLeq(s[i], s[j])
  }

  /** In a sorted list the first tuple is at most every tuple and the last
      tuple has the largest number. */
  lemma SortedEnds(s: seq<Frame>)
    requires s != [] && Sorted(s)
    ensures forall x :: x in s ==> FrameLeq(s[0], x)
    ensures forall x :: x in s ==> x.number <= s[|s| - 1].number
  {
    FrameLeqTotal(s[0], s[0]);
    forall x | x in s ensures x.number <= s[|s| - 1].number {
      var k :| 0 <= k < |s| && s[k] == x;
      if k < |s| - 1 {
        assert FrameLeq(s[k], s[|s| - 1]);
      }
    }
  }

  lemma SameMembers(g: seq<Frame>, s: seq<Frame>)
    requires multiset(s) == multiset(g)
    ensures forall x :: x in g <==> x in s
  {
    forall x ensures x in g <==> x in s {
      assert x in g <==> x in multiset(g);
      assert x in s <==> x in multiset(s);
    }
  }

  /** Reading the extremes through MinFrame and MaxNumber is what sorting and
      indexing does: in every sorted arrangement of the frames the first
      tuple is MinFrame and the last tuple carries MaxNumber. */
  lemma SortedFirstLast(g: seq<Frame>, s: seq<Frame>)
    requires g != [] && multiset(s) == multiset(g) && Sorted(s)
    ensures s[0] == MinFrame(g)
    ensures s[|s| - 1].number == MaxNumber(g)
  {
    assert |s| == |multiset(s)| == |g|;
    SameMembers(g, s);
    SortedEnds(s);
    var m := MinFrame(g);
    assert s[0] in s && s[|s| - 1] in s;
    FrameLeqAntisym(s[0], m);
  }
}
