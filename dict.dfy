/** Python dicts with string keys, as association lists: the insertion
    order of a dict is part of the value, `d[k] = v` replaces the value in
    place when k is present and appends otherwise. */
module Dict {
  import opened Common

  /** The keys of an object in order. */
  function Keys<V>(fs: seq<(string, V)>): (r: seq<string>)
    ensures |r| == |fs|
    ensures forall i :: 0 <= i < |fs| ==> r[i] == fs[i].0
  {
    if fs == [] then [] else [fs[0].0] + Keys(fs[1..])
  }

  predicate HasKey<V>(fs: seq<(string, V)>, k: string) {
    k in Keys(fs)
  }

  /** A dict never holds the same key twice. */
  predicate DistinctKeys<V>(fs: seq<(string, V)>) {
    forall i, j :: 0 <= i < j < |fs| ==> fs[i].0 != fs[j].0
  }

  /** Position of the first entry with key k. */
  function Find<V>(fs: seq<(string, V)>, k: string): (r: Option<nat>)
    ensures r.Some? ==> r.value < |fs| && fs[r.value].0 == k
                        && forall j :: 0 <= j < r.value ==> fs[j].0 != k
    ensures r.None? <==> !HasKey(fs, k)
  {
    if fs == [] then None
    else if fs[0].0 == k then Some(0)
    else match Find(fs[1..], k)
         case None => None
         case Some(j) => Some(j + 1)
  }

  /** d.get(k): the value stored under k, if any. */
  function Get<V>(fs: seq<(string, V)>, k: string): (r: Option<V>)
    ensures r.Some? <==> HasKey(fs, k)
  {
    match Find(fs, k)
    case None => None
    case Some(i) => Some(fs[i].1)
  }

  /** d[k] = v: replaces the value in place when k is present, else appends. */
  function Put<V>(fs: seq<(string, V)>, k: string, v: V): seq<(string, V)> {
    match Find(fs, k)
    case None => fs + [(k, v)]
    case Some(i) => fs[i := (k, v)]
  }

  /** In a dict, the entry at position i is what d.get of its key returns. */
  lemma GetAt<V>(fs: seq<(string, V)>, i: nat)
    requires DistinctKeys(fs) && i < |fs|
    ensures Find(fs, fs[i].0) == Some(i) && Get(fs, fs[i].0) == Some(fs[i].1)
  {
  }

  /** Finding a key in a dict extended by one entry. */
  lemma {:induction false} FindAppend<V>(fs: seq<(string, V)>, e: (string, V), k: string)
    ensures Find(fs + [e], k) == if HasKey(fs, k) then Find(fs, k)
                                 else if e.0 == k then Some(|fs|) else None
  {
    if fs != [] {
      assert (fs + [e])[1..] == fs[1..] + [e];
      FindAppend(fs[1..], e, k);
    }
  }

  /** Looking a key up in a dict extended by one entry. */
  lemma GetAppend<V>(fs: seq<(string, V)>, e: (string, V), k: string)
    ensures Get(fs + [e], k) == if HasKey(fs, k) then Get(fs, k)
                                else if e.0 == k then Some(e.1) else None
  {
    FindAppend(fs, e, k);
  }

  /** The keys of a dict extended by one entry. */
  lemma KeysAppend<V>(fs: seq<(string, V)>, e: (string, V))
    ensures Keys(fs + [e]) == Keys(fs) + [e.0]
  {
  }

  lemma {:induction false} KeysConcat<V>(a: seq<(string, V)>, b: seq<(string, V)>)
    ensures Keys(a + b) == Keys(a) + Keys(b)
  {
    assert |Keys(a + b)| == |Keys(a) + Keys(b)|;
    forall i | 0 <= i < |a + b|
      ensures Keys(a + b)[i] == (Keys(a) + Keys(b))[i]
    {
      if i >= |a| { assert (a + b)[i] == b[i - |a|]; }
    }
  }

  /** Find looks only at the keys. */
  lemma {:induction false} FindSameKeys<V, W>(a: seq<(string, V)>, b: seq<(string, W)>, k: string)
    requires Keys(a) == Keys(b)
    ensures Find(a, k) == Find(b, k)
  {
    if a != [] {
      assert Keys(a[1..]) == Keys(a)[1..] == Keys(b)[1..] == Keys(b[1..]);
      FindSameKeys(a[1..], b[1..], k);
    }
  }

  /** A key of a is found in a + b where it is found in a. */
  lemma {:induction false} FindPrefix<V>(a: seq<(string, V)>, b: seq<(string, V)>, k: string)
    requires HasKey(a, k)
    ensures Find(a + b, k) == Find(a, k)
  {
    if a[0].0 != k {
      assert (a + b)[1..] == a[1..] + b;
      assert Keys(a) == [a[0].0] + Keys(a[1..]);
      FindPrefix(a[1..], b, k);
    }
  }

  /** Two dicts with disjoint keys concatenate to a dict. */
  lemma DistinctConcat<V>(a: seq<(string, V)>, b: seq<(string, V)>)
    requires DistinctKeys(a) && DistinctKeys(b)
    requires forall k :: HasKey(a, k) ==> !HasKey(b, k)
    ensures DistinctKeys(a + b)
  {
    var s := a + b;
    forall i, j | 0 <= i < j < |s|
      ensures s[i].0 != s[j].0
    {
      if j < |a| {
        assert s[i] == a[i] && s[j] == a[j];
      } else if i >= |a| {
        assert s[i] == b[i - |a|] && s[j] == b[j - |a|];
      } else {
        assert Keys(a)[i] == s[i].0;
        assert Keys(b)[j - |a|] == s[j].0;
        assert HasKey(a, s[i].0) && HasKey(b, s[j].0);
      }
    }
  }

  /** Being a dict depends on the keys only. */
  lemma DistinctSameKeys<V, W>(a: seq<(string, V)>, b: seq<(string, W)>)
    requires DistinctKeys(a) && Keys(a) == Keys(b)
    ensures DistinctKeys(b)
  {
    forall i, j | 0 <= i < j < |b|
      ensures b[i].0 != b[j].0
    {
      assert Keys(a)[i] == a[i].0 && Keys(a)[j] == a[j].0;
    }
  }

  /** d[k] = v: afterwards k maps to v, every other key keeps its value, the
      key order only grows by k at the end when k is new, and a dict stays a
      dict. */
  lemma PutSpec<V>(fs: seq<(string, V)>, k: string, v: V, k': string)
    ensures Get(Put(fs, k, v), k') == if k' == k then Some(v) else Get(fs, k')
    ensures Keys(Put(fs, k, v)) == if HasKey(fs, k) then Keys(fs) else Keys(fs) + [k]
    ensures DistinctKeys(fs) ==> DistinctKeys(Put(fs, k, v))
  {
    match Find(fs, k)
    case None =>
      KeysAppend(fs, (k, v));
      GetAppend(fs, (k, v), k');
      if DistinctKeys(fs) {
        DistinctConcat(fs, [(k, v)]);
      }
    case Some(i) =>
      var r := fs[i := (k, v)];
      assert Keys(r) == Keys(fs);
      FindSameKeys(r, fs, k');
  }

  /** A dict whose key list has no repeats. */
  lemma DistinctFromKeys<V>(fs: seq<(string, V)>)
    requires forall i, j :: 0 <= i < j < |Keys(fs)| ==> Keys(fs)[i] != Keys(fs)[j]
    ensures DistinctKeys(fs)
  {
    forall i, j | 0 <= i < j < |fs| ensures fs[i].0 != fs[j].0 {
      assert Keys(fs)[i] == fs[i].0 && Keys(fs)[j] == fs[j].0;
    }
  }
}
