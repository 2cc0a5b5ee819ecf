/** The last step of the directory scan (support_files/search.py):
    `sorted(all_files.items(), key=lambda item: item[1]["ctime"], reverse=True)`.
    Python's sort is stable, also with reverse=True: items with equal ctime
    keep their order. */
module CtimeSort {
  import opened Common
  import opened Dict
  import opened Assets

  function Ctime(e: Entry): int {
    e.1.ctime
  }

  /** e placed before the first item whose ctime is not greater than its own. */
  function Insert(e: Entry, s: seq<Entry>): (r: seq<Entry>)
    ensures multiset(r) == multiset(s) + multiset{e}
  {
    if s == [] || Ctime(s[0]) <= Ctime(e) then [e] + s
    else
      assert s == [s[0]] + s[1..];
      [s[0]] + Insert(e, s[1..])
  }

  /** The items by ctime, newest first, ties in their original order. */
  function SortByCtimeDesc(es: seq<Entry>): (r: seq<Entry>)
    ensures multiset(r) == multiset(es)
  {
    if es == [] then []
    else
      assert es == [es[0]] + es[1..];
      Insert(es[0], SortByCtimeDesc(es[1..]))
  }

  predicate Descending(s: seq<Entry>) {
    forall i, j :: 0 <= i < j < |s| ==> Ctime(s[i]) >= Ctime(s[j])
  }

  /** The items with one given ctime, in order. */
  function WithCtime(s: seq<Entry>, c: int): seq<Entry> {
    if s == [] then []
    else (if Ctime(s[0]) == c then [s[0]] else []) + WithCtime(s[1..], c)
  }

  lemma {:induction false} InsertDescending(e: Entry, s: seq<Entry>)
    requires Descending(s)
    ensures Descending(Insert(e, s))
  {
    if s != [] && Ctime(s[0]) > Ctime(e) {
      InsertDescending(e, s[1..]);
      var r := Insert(e, s);
      var t := Insert(e, s[1..]);
      assert r == [s[0]] + t;
      forall j | 0 < j < |r| ensures Ctime(r[0]) >= Ctime(r[j]) {
        assert r[j] in multiset(t);
        assert r[j] in multiset(s[1..]) + multiset{e};
        if r[j] != e {
          assert r[j] in s[1..];
        }
      }
    }
  }

  /** Inserting keeps the relative order of each ctime class: e goes in
      front of the items that share its ctime. */
  lemma {:induction false} InsertWithCtime(e: Entry, s: seq<Entry>, c: int)
    ensures WithCtime(Insert(e, s), c) == (if Ctime(e) == c then [e] else []) + WithCtime(s, c)
  {
    if s == [] || Ctime(s[0]) <= Ctime(e) {
      assert ([e] + s)[1..] == s;
    } else {
      var r := Insert(e, s);
      assert r[1..] == Insert(e, s[1..]);
      InsertWithCtime(e, s[1..], c);
    }
  }

  /** The result is ordered newest first. */
  lemma {:induction false} SortDescending(es: seq<Entry>)
    ensures Descending(SortByCtimeDesc(es))
  {
    if es != [] {
      SortDescending(es[1..]);
      InsertDescending(es[0], SortByCtimeDesc(es[1..]));
    }
  }

  /** The sort is stable: for every ctime, the items with that ctime appear in
      the result in the order they had before. */
  lemma {:induction false} SortStable(es: seq<Entry>, c: int)
    ensures WithCtime(SortByCtimeDesc(es), c) == WithCtime(es, c)
  {
    if es != [] {
      SortStable(es[1..], c);
      InsertWithCtime(es[0], SortByCtimeDesc(es[1..]), c);
    }
  }

  /** Items with the same multiset hold the same keys. */
  lemma PermutationKeys(r: seq<Entry>, s: seq<Entry>, k: string)
    requires multiset(r) == multiset(s)
    ensures HasKey(r, k) <==> HasKey(s, k)
  {
    if HasKey(r, k) {
      var i :| 0 <= i < |r| && Keys(r)[i] == k;
      assert r[i] in multiset(s);
      var j :| 0 <= j < |s| && s[j] == r[i];
      assert Keys(s)[j] == k;
    }
    if HasKey(s, k) {
      var j :| 0 <= j < |s| && Keys(s)[j] == k;
      assert s[j] in multiset(r);
      var i :| 0 <= i < |r| && r[i] == s[j];
      assert Keys(r)[i] == k;
    }
  }

  /** Inserting an item with a new key into a dict gives a dict. */
  lemma {:induction false} InsertKeepsDict(e: Entry, s: seq<Entry>)
    requires DistinctKeys(s) && !HasKey(s, e.0)
    ensures DistinctKeys(Insert(e, s))
  {
    if s == [] || Ctime(s[0]) <= Ctime(e) {
      KeysConcat([e], s);
      DistinctConcat([e], s);
    } else {
      var t := s[1..];
      var it := Insert(e, t);
      assert s == [s[0]] + t;
      KeysConcat([s[0]], t);
      InsertKeepsDict(e, t);
      PermutationKeys(it, t + [e], s[0].0);
      KeysConcat(t, [e]);
      DistinctConcat([s[0]], it);
    }
  }

  /** Sorting the items of a dict gives a dict with the same keys. */
  lemma {:induction false} SortKeepsDict(es: seq<Entry>)
    requires DistinctKeys(es)
    ensures DistinctKeys(SortByCtimeDesc(es))
    ensures forall k :: HasKey(SortByCtimeDesc(es), k) <==> HasKey(es, k)
  {
    forall k ensures HasKey(SortByCtimeDesc(es), k) <==> HasKey(es, k) {
      PermutationKeys(SortByCtimeDesc(es), es, k);
    }
    if es != [] {
      var t := es[1..];
      assert es == [es[0]] + t;
      KeysConcat([es[0]], t);
      SortKeepsDict(t);
      InsertKeepsDict(es[0], SortByCtimeDesc(t));
    }
  }
}
