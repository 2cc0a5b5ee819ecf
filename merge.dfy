/** The catalog merge of LocalAssetBrowser.py: merge_dicts, which folds a
    freshly scanned catalog into the stored one, and the add-missing loop of
    set_file_list. */
module CatalogMerge {
  import opened Common
  import opened Dict
  import opened Json

  // ---------------------------------------------------------------------------
  // merge_dicts, as the code computes it
  // ---------------------------------------------------------------------------

  /** merge_dicts(dict1, dict2): a copy of dict1 into which the entries of
      dict2 are folded one by one, in dict2's order. */
  function Merge(d1: seq<Field>, d2: seq<Field>): seq<Field>
    decreases Obj(d2), |d2| + 1
  {
    MergeFrom(d1, d2, 0)
  }

  /** The loop of merge_dicts from entry i of dict2 on, with `result` the
      copy built so far. */
  function MergeFrom(result: seq<Field>, d2: seq<Field>, i: nat): seq<Field>
    requires i <= |d2|
    decreases Obj(d2), |d2| - i
  {
    if i == |d2| then result
    else
      var key := d2[i].0;
      var value := d2[i].1;
      assert d2[i] in d2;
      var next :=
        match Find(result, key)
        case None => result + [(key, value)]
        case Some(j) =>
          if result[j].1.Obj? && value.Obj? then
            result[j := (key, Obj(Merge(result[j].1.fields, value.fields)))]
          else
            result;
      MergeFrom(next, d2, i + 1)
  }

  // ---------------------------------------------------------------------------
  // An independent description of the merged dict
  // ---------------------------------------------------------------------------

  /** The value a key of dict1 ends up with, given what dict2 holds under it:
      two objects merge recursively, anything else keeps dict1's value. */
  function Combine(v1: Value, v2: Option<Value>): Value {
    if v2.Some? && v1.Obj? && v2.value.Obj? then Obj(Merge(v1.fields, v2.value.fields)) else v1
  }

  /** dict1's entries in dict1's order, each with its combined value. */
  function Combined(d1: seq<Field>, d2: seq<Field>): (r: seq<Field>)
    ensures |r| == |d1| && Keys(r) == Keys(d1)
    ensures forall j :: 0 <= j < |d1| ==> r[j] == (d1[j].0, Combine(d1[j].1, Get(d2, d1[j].0)))
  {
    seq(|d1|, j requires 0 <= j < |d1| => (d1[j].0, Combine(d1[j].1, Get(d2, d1[j].0))))
  }

  /** The entries of dict2 whose key dict1 lacks, in dict2's order. */
  function NewEntries(d1: seq<Field>, d2: seq<Field>): seq<Field> {
    if d2 == [] then []
    else
      var last := d2[|d2| - 1];
      NewEntries(d1, d2[..|d2| - 1]) + (if HasKey(d1, last.0) then [] else [last])
  }

  /** The merged dict described entry by entry: dict1's keys first, in their
      order and with their combined values, then dict2's new keys. */
  function MergeSpec(d1: seq<Field>, d2: seq<Field>): seq<Field> {
    Combined(d1, d2) + NewEntries(d1, d2)
  }

  /** NewEntries keeps exactly the entries of dict2 with a key new to dict1. */
  lemma NewEntriesMembers(d1: seq<Field>, d2: seq<Field>)
    ensures forall e :: e in NewEntries(d1, d2) <==> e in d2 && !HasKey(d1, e.0)
    ensures forall k :: HasKey(NewEntries(d1, d2), k) <==> HasKey(d2, k) && !HasKey(d1, k)
  {
    NewEntriesElems(d1, d2);
    NewEntriesKeys(d1, d2);
  }

  lemma {:induction false} NewEntriesElems(d1: seq<Field>, d2: seq<Field>)
    ensures forall e :: e in NewEntries(d1, d2) <==> e in d2 && !HasKey(d1, e.0)
  {
    if d2 != [] {
      var init := d2[..|d2| - 1];
      var last := d2[|d2| - 1];
      NewEntriesElems(d1, init);
      assert d2 == init + [last];
    }
  }

  lemma {:induction false} NewEntriesKeys(d1: seq<Field>, d2: seq<Field>)
    ensures forall k :: HasKey(NewEntries(d1, d2), k) <==> HasKey(d2, k) && !HasKey(d1, k)
  {
    if d2 != [] {
      var init := d2[..|d2| - 1];
      var last := d2[|d2| - 1];
      NewEntriesKeys(d1, init);
      assert d2 == init + [last];
      KeysAppend(init, last);
      if HasKey(d1, last.0) {
        assert NewEntries(d1, d2) == NewEntries(d1, init);
      } else {
        var n := NewEntries(d1, init);
        assert NewEntries(d1, d2) == n + [last];
        KeysAppend(n, last);
        forall k ensures HasKey(n + [last], k) <==> HasKey(d2, k) && !HasKey(d1, k) {
          assert HasKey(n + [last], k) <==> HasKey(n, k) || k == last.0;
        }
      }
    }
  }

  /** The new entries of a dict are themselves a dict. */
  lemma {:induction false} NewEntriesDistinct(d1: seq<Field>, d2: seq<Field>)
    requires DistinctKeys(d2)
    ensures DistinctKeys(NewEntries(d1, d2))
  {
    if d2 != [] {
      var init := d2[..|d2| - 1];
      var last := d2[|d2| - 1];
      NewEntriesDistinct(d1, init);
      NewEntriesKeys(d1, init);
      assert !HasKey(init, last.0);
    }
  }

  /** With nothing to exclude, NewEntries is dict2 itself. */
  lemma {:induction false} NewEntriesOfEmpty(d2: seq<Field>)
    ensures NewEntries([], d2) == d2
  {
    if d2 != [] {
      NewEntriesOfEmpty(d2[..|d2| - 1]);
      assert d2 == d2[..|d2| - 1] + [d2[|d2| - 1]];
    }
  }

  /** When dict1 holds every key of dict2, nothing is new. */
  lemma {:induction false} NewEntriesNone(d1: seq<Field>, d2: seq<Field>)
    requires forall k :: HasKey(d2, k) ==> HasKey(d1, k)
    ensures NewEntries(d1, d2) == []
  {
    if d2 != [] {
      var init := d2[..|d2| - 1];
      var last := d2[|d2| - 1];
      KeysAppend(init, last);
      assert d2 == init + [last];
      assert HasKey(d2, last.0);
      forall k | HasKey(init, k) ensures HasKey(d1, k) {
        assert HasKey(d2, k);
      }
      NewEntriesNone(d1, init);
    }
  }

  /** NewEntries of a dict extended by one entry. */
  lemma NewEntriesAppend(d1: seq<Field>, p: seq<Field>, e: Field)
    ensures NewEntries(d1, p + [e]) == NewEntries(d1, p) + (if HasKey(d1, e.0) then [] else [e])
  {
    assert (p + [e])[..|p|] == p;
  }

  /** Extending dict2 by a key that dict1 lacks leaves the combined part alone. */
  lemma CombinedAppendNew(d1: seq<Field>, p: seq<Field>, e: Field)
    requires !HasKey(d1, e.0)
    ensures Combined(d1, p + [e]) == Combined(d1, p)
  {
    forall j | 0 <= j < |d1|
      ensures Get(p + [e], d1[j].0) == Get(p, d1[j].0)
    {
      assert Keys(d1)[j] == d1[j].0;
      GetAppend(p, e, d1[j].0);
    }
  }

  /** Extending dict2 by a key that dict1 has at position j0 (and dict2 did
      not have yet) changes only the combined value at j0, which was dict1's. */
  lemma CombinedAppendShared(d1: seq<Field>, p: seq<Field>, e: Field, j0: nat)
    requires DistinctKeys(d1) && j0 < |d1| && d1[j0].0 == e.0 && !HasKey(p, e.0)
    ensures Combined(d1, p)[j0] == d1[j0]
    ensures Combined(d1, p + [e]) == Combined(d1, p)[j0 := (e.0, Combine(d1[j0].1, Some(e.1)))]
  {
    GetAppend(p, e, e.0);
    forall j | 0 <= j < |d1| && j != j0
      ensures Get(p + [e], d1[j].0) == Get(p, d1[j].0)
    {
      GetAppend(p, e, d1[j].0);
    }
  }

  /** One turn of the merge loop on a key that dict1 lacks appends the entry. */
  lemma MergeStepNew(d1: seq<Field>, d2: seq<Field>, i: nat)
    requires DistinctKeys(d2) && i < |d2| && !HasKey(d1, d2[i].0)
    ensures Find(MergeSpec(d1, d2[..i]), d2[i].0) == None
    ensures MergeSpec(d1, d2[..i + 1]) == MergeSpec(d1, d2[..i]) + [d2[i]]
  {
    var p := d2[..i];
    var e := d2[i];
    assert d2[..i + 1] == p + [e];
    assert !HasKey(p, e.0);
    MergeSpecLacks(d1, p, e.0);
    CombinedAppendNew(d1, p, e);
    NewEntriesAppend(d1, p, e);
  }

  /** A key neither dict has is not in the described merge. */
  lemma MergeSpecLacks(d1: seq<Field>, d2: seq<Field>, k: string)
    requires !HasKey(d1, k) && !HasKey(d2, k)
    ensures !HasKey(MergeSpec(d1, d2), k)
  {
    NewEntriesKeys(d1, d2);
    KeysConcat(Combined(d1, d2), NewEntries(d1, d2));
  }

  /** On a key that dict1 has at position j0, the merge loop finds dict1's
      value there ... */
  lemma MergeStepFind(d1: seq<Field>, d2: seq<Field>, i: nat, j0: nat)
    requires DistinctKeys(d1) && i < |d2|
    requires j0 < |d1| && d1[j0].0 == d2[i].0
    ensures Find(MergeSpec(d1, d2[..i]), d2[i].0) == Some(j0)
    ensures MergeSpec(d1, d2[..i])[j0] == Combined(d1, d2[..i])[j0]
  {
    var c := Combined(d1, d2[..i]);
    var n := NewEntries(d1, d2[..i]);
    GetAt(d1, j0);
    FindSameKeys(c, d1, d2[i].0);
    assert Keys(d1)[j0] == d2[i].0;
    FindPrefix(c, n, d2[i].0);
  }

  /** ... and the turn combines it with dict2's value. */
  lemma MergeStepShared(d1: seq<Field>, d2: seq<Field>, i: nat, j0: nat)
    requires DistinctKeys(d1) && DistinctKeys(d2) && i < |d2|
    requires j0 < |d1| && d1[j0].0 == d2[i].0
    ensures Find(MergeSpec(d1, d2[..i]), d2[i].0) == Some(j0)
    ensures MergeSpec(d1, d2[..i])[j0] == d1[j0]
    ensures MergeSpec(d1, d2[..i + 1]) ==
              MergeSpec(d1, d2[..i])[j0 := (d2[i].0, Combine(d1[j0].1, Some(d2[i].1)))]
  {
    var p := d2[..i];
    var e := d2[i];
    assert d2[..i + 1] == p + [e];
    assert !HasKey(p, e.0);
    MergeStepFind(d1, d2, i, j0);
    CombinedAppendShared(d1, p, e, j0);
    NewEntriesAppend(d1, p, e);
    UpdateInPrefix(Combined(d1, p), NewEntries(d1, p), j0, (e.0, Combine(d1[j0].1, Some(e.1))));
  }

  lemma UpdateInPrefix(a: seq<Field>, b: seq<Field>, j: nat, x: Field)
    requires j < |a|
    ensures a[j := x] + b == (a + b)[j := x]
  {
  }

  /** The loop of merge_dicts, run on the described dict of a prefix of
      dict2, takes one step to the described dict of the next prefix. */
  lemma MergeFromStep(d1: seq<Field>, d2: seq<Field>, i: nat)
    requires DistinctKeys(d1) && DistinctKeys(d2) && i < |d2|
    ensures MergeFrom(MergeSpec(d1, d2[..i]), d2, i) == MergeFrom(MergeSpec(d1, d2[..i + 1]), d2, i + 1)
  {
    var s := MergeSpec(d1, d2[..i]);
    var key := d2[i].0;
    var value := d2[i].1;
    if HasKey(d1, key) {
      var j0 := Find(d1, key).value;
      MergeStepShared(d1, d2, i, j0);
      if !(s[j0].1.Obj? && value.Obj?) {
        assert s[j0 := (key, Combine(d1[j0].1, Some(value)))] == s;
      }
    } else {
      MergeStepNew(d1, d2, i);
    }
  }

  lemma {:induction false} MergeFromSpec(d1: seq<Field>, d2: seq<Field>, i: nat)
    requires DistinctKeys(d1) && DistinctKeys(d2) && i <= |d2|
    ensures MergeFrom(MergeSpec(d1, d2[..i]), d2, i) == MergeSpec(d1, d2)
    decreases |d2| - i
  {
    if i == |d2| {
      assert d2[..i] == d2;
    } else {
      MergeFromStep(d1, d2, i);
      MergeFromSpec(d1, d2, i + 1);
    }
  }

  /** merge_dicts computes exactly the described dict. */
  lemma MergeMatchesSpec(d1: seq<Field>, d2: seq<Field>)
    requires DistinctKeys(d1) && DistinctKeys(d2)
    ensures Merge(d1, d2) == Combined(d1, d2) + NewEntries(d1, d2)
  {
    assert Combined(d1, []) == d1;
    assert d2[..0] == [];
    MergeFromSpec(d1, d2, 0);
  }

  // ---------------------------------------------------------------------------
  // Properties of the merge
  // ---------------------------------------------------------------------------

  /** The merged keys are dict1's keys in their order followed by dict2's new
      keys in dict2's order; as a set they are the union, and no key repeats. */
  lemma MergeKeys(d1: seq<Field>, d2: seq<Field>)
    requires DistinctKeys(d1) && DistinctKeys(d2)
    ensures Keys(Merge(d1, d2)) == Keys(d1) + Keys(NewEntries(d1, d2))
    ensures forall k :: HasKey(Merge(d1, d2), k) <==> HasKey(d1, k) || HasKey(d2, k)
    ensures DistinctKeys(Merge(d1, d2))
  {
    MergeMatchesSpec(d1, d2);
    var c := Combined(d1, d2);
    var n := NewEntries(d1, d2);
    KeysConcat(c, n);
    NewEntriesMembers(d1, d2);
    NewEntriesDistinct(d1, d2);
    DistinctSameKeys(d1, c);
    DistinctConcat(c, n);
  }

  /** On a key of dict1 the merged value is dict1's, unless both values are
      objects, which merge recursively; a key only dict2 has keeps dict2's
      value. */
  lemma MergePrecedence(d1: seq<Field>, d2: seq<Field>, k: string)
    requires DistinctKeys(d1) && DistinctKeys(d2)
    ensures HasKey(d1, k) ==> Get(Merge(d1, d2), k) == Some(Combine(Get(d1, k).value, Get(d2, k)))
    ensures !HasKey(d1, k) ==> Get(Merge(d1, d2), k) == Get(d2, k)
  {
    MergeMatchesSpec(d1, d2);
    var c := Combined(d1, d2);
    var n := NewEntries(d1, d2);
    if HasKey(d1, k) {
      FindSameKeys(c, d1, k);
      FindPrefix(c, n, k);
    } else {
      NewEntriesMembers(d1, d2);
      NewEntriesDistinct(d1, d2);
      KeysConcat(c, n);
      if HasKey(d2, k) {
        var i := Find(n, k).value;
        assert n[i] in n;
        var t := Find(d2, k).value;
        assert (c + n)[|d1| + i] == n[i];
        MergeKeys(d1, d2);
        GetAt(c + n, |d1| + i);
        GetAt(d2, t);
        assert n[i] == d2[t] by {
          assert n[i] in d2;
          var u: int :| 0 <= u < |d2| && d2[u] == n[i];
          GetAt(d2, u);
        }
      }
    }
  }

  /** Merging with an empty dict, on either side, gives the other dict. */
  lemma MergeIdentity(d: seq<Field>)
    requires DistinctKeys(d)
    ensures Merge(d, []) == d
    ensures Merge([], d) == d
  {
    MergeMatchesSpec([], d);
    NewEntriesOfEmpty(d);
  }

  /** Merging keeps the catalog a tree of dicts. */
  lemma MergeWellFormed(d1: seq<Field>, d2: seq<Field>)
    requires WellFormed(Obj(d1)) && WellFormed(Obj(d2))
    ensures WellFormed(Obj(Merge(d1, d2)))
    decreases Obj(d2)
  {
    MergeKeys(d1, d2);
    MergeMatchesSpec(d1, d2);
    var c := Combined(d1, d2);
    var n := NewEntries(d1, d2);
    NewEntriesMembers(d1, d2);
    var m: seq<Field> := c + n;
    forall i: int | 0 <= i < |m|
      ensures WellFormed(m[i].1)
    {
      if i < |d1| {
        var g := Get(d2, d1[i].0);
        if g.Some? && d1[i].1.Obj? && g.value.Obj? {
          var t := Find(d2, d1[i].0).value;
          assert d2[t] in d2;
          MergeWellFormed(d1[i].1.fields, d2[t].1.fields);
        }
      } else {
        assert m[i] == n[i - |d1|];
        assert n[i - |d1|] in n;
      }
    }
  }

  /** An object merged with itself is unchanged. */
  lemma MergeSelf(d: seq<Field>)
    requires WellFormed(Obj(d))
    ensures Merge(d, d) == d
    decreases Obj(d)
  {
    MergeMatchesSpec(d, d);
    NewEntriesNone(d, d);
    forall j | 0 <= j < |d|
      ensures Combined(d, d)[j] == d[j]
    {
      GetAt(d, j);
      if d[j].1.Obj? {
        assert d[j] in d;
        MergeSelf(d[j].1.fields);
      }
    }
  }

  /** Merging the same incoming catalog a second time changes nothing. */
  lemma MergeIdempotent(a: seq<Field>, b: seq<Field>)
    requires WellFormed(Obj(a)) && WellFormed(Obj(b))
    ensures Merge(Merge(a, b), b) == Merge(a, b)
    decreases Obj(b)
  {
    var m := Merge(a, b);
    MergeKeys(a, b);
    MergeMatchesSpec(a, b);
    MergeMatchesSpec(m, b);
    NewEntriesNone(m, b);
    var n := NewEntries(a, b);
    NewEntriesMembers(a, b);
    forall j | 0 <= j < |m|
      ensures Combined(m, b)[j] == m[j]
    {
      var k := m[j].0;
      var g := Get(b, k);
      if j < |a| {
        if g.Some? && a[j].1.Obj? && g.value.Obj? {
          var t := Find(b, k).value;
          assert b[t] in b;
          MergeIdempotent(a[j].1.fields, b[t].1.fields);
        }
      } else {
        var e := n[j - |a|];
        assert m[j] == e;
        NewEntryStable(b, e);
      }
    }
  }

  /** An entry of dict2 merged again with dict2 keeps its value. */
  lemma NewEntryStable(b: seq<Field>, e: Field)
    requires WellFormed(Obj(b)) && e in b
    ensures Combine(e.1, Get(b, e.0)) == e.1
  {
    var u: int :| 0 <= u < |b| && b[u] == e;
    GetAt(b, u);
    if e.1.Obj? {
      MergeSelf(e.1.fields);
    }
  }

  // ---------------------------------------------------------------------------
  // set_file_list: add the keys the stored catalog lacks
  // ---------------------------------------------------------------------------

  /** The add-missing loop of set_file_list: every key of the scan result
      that the stored data lacks is appended with its scanned record; the
      stored entries stay as they were, in place. */
  method AddMissing(data: seq<Field>, fileList: seq<Field>) returns (r: seq<Field>)
    requires DistinctKeys(fileList)
    ensures r == data + NewEntries(data, fileList)
  {
    r := data;
    for i := 0 to |fileList|
      invariant r == data + NewEntries(data, fileList[..i])
    {
      var key := fileList[i].0;
      var value := fileList[i].1;
      AddMissingSeen(data, fileList, i);
      AddMissingStep(data, fileList, i);
      if !HasKey(r, key) {
        r := Put(r, key, value);
      }
    }
    assert fileList[..|fileList|] == fileList;
  }

  /** The key the add-missing loop looks at in turn i is in the data built so
      far exactly when the stored data had it ... */
  lemma AddMissingSeen(data: seq<Field>, fileList: seq<Field>, i: nat)
    requires DistinctKeys(fileList) && i < |fileList|
    ensures HasKey(data + NewEntries(data, fileList[..i]), fileList[i].0) <==> HasKey(data, fileList[i].0)
  {
    var p := fileList[..i];
    assert !HasKey(p, fileList[i].0);
    NewEntriesMembers(data, p);
    KeysConcat(data, NewEntries(data, p));
  }

  /** ... and the turn extends the new entries accordingly. */
  lemma AddMissingStep(data: seq<Field>, fileList: seq<Field>, i: nat)
    requires i < |fileList|
    ensures data + NewEntries(data, fileList[..i + 1]) ==
              if HasKey(data, fileList[i].0) then data + NewEntries(data, fileList[..i])
              else data + NewEntries(data, fileList[..i]) + [fileList[i]]
  {
    assert fileList[..i + 1] == fileList[..i] + [fileList[i]];
    NewEntriesAppend(data, fileList[..i], fileList[i]);
  }

  /** Running the add-missing loop again with the same scan adds nothing. */
  lemma AddMissingTwice(data: seq<Field>, fileList: seq<Field>)
    ensures NewEntries(data + NewEntries(data, fileList), fileList) == []
  {
    var r := data + NewEntries(data, fileList);
    NewEntriesMembers(data, fileList);
    KeysConcat(data, NewEntries(data, fileList));
    NewEntriesNone(r, fileList);
  }
}
