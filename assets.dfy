/** The records the directory scan produces (support_files/search.py) and
    their JSON form as the catalog stores them. */
module Assets {
  import opened Common
  import opened Dict
  import opened Json

  /** The "type" of a record; a sequence also carries its frame range. */
  datatype Kind =
    | Video
    | Image
    | Sequence(frameCount: nat, firstFrame: nat, lastFrame: nat)

  datatype Asset = Asset(ctime: int, path: string, name: string, kind: Kind)

  /** One item of the scan's dict: the id it is stored under and the record. */
  type Entry = (string, Asset)

  function TypeName(k: Kind): string {
    match k
    case Video => "video"
    case Image => "image"
    case Sequence(_, _, _) => "sequence"
  }

  /** The keys of a record, in the order the scan writes them; a standalone
      image has no "id". */
  function RecordKeys(k: Kind): seq<string> {
    match k
    case Video => ["id", "ctime", "path", "name", "type"]
    case Image => ["ctime", "path", "name", "type"]
    case Sequence(_, _, _) =>
      ["id", "ctime", "path", "name", "type", "frame_count", "first_frame", "last_frame"]
  }

  /** The record as a dict. */
  function AssetJson(id: string, a: Asset): seq<Field> {
    var common := [("ctime", Num(a.ctime)), ("path", Str(a.path)), ("name", Str(a.name)),
                   ("type", Str(TypeName(a.kind)))];
    match a.kind
    case Video => [("id", Str(id))] + common
    case Image => common
    case Sequence(count, first, last) =>
      [("id", Str(id))] + common
      + [("frame_count", Num(count)), ("first_frame", Num(first)), ("last_frame", Num(last))]
  }

  /** A record has exactly the keys of its type, each once. */
  lemma AssetJsonShape(id: string, a: Asset)
    ensures Keys(AssetJson(id, a)) == RecordKeys(a.kind)
    ensures WellFormed(Obj(AssetJson(id, a)))
  {
    AssetJsonKeys(id, a);
    RecordKeysDistinct(a.kind);
    DistinctFromKeys(AssetJson(id, a));
    AssetJsonFlat(id, a);
    FlatWellFormed(AssetJson(id, a));
  }

  /** Every value of a record is a string or a number. */
  lemma AssetJsonFlat(id: string, a: Asset)
    ensures forall i :: 0 <= i < |AssetJson(id, a)| ==> !AssetJson(id, a)[i].1.Obj?
  {
  }

  lemma FlatWellFormed(fs: seq<Field>)
    requires DistinctKeys(fs) && forall i :: 0 <= i < |fs| ==> !fs[i].1.Obj?
    ensures WellFormed(Obj(fs))
  {
  }

  /** Only a standalone image lacks "id". */
  lemma AssetJsonId(id: string, a: Asset)
    ensures HasKey(AssetJson(id, a), "id") <==> !a.kind.Image?
  {
    AssetJsonKeys(id, a);
    var ks := RecordKeys(a.kind);
    if a.kind.Image? {
      assert forall i :: 0 <= i < |ks| ==> ks[i] != "id";
    } else {
      assert ks[0] == "id";
    }
  }

  /** The "id", "type" and "path" values of a record. */
  lemma AssetJsonValues(id: string, a: Asset)
    ensures !a.kind.Image? ==> Get(AssetJson(id, a), "id") == Some(Str(id))
    ensures Get(AssetJson(id, a), "type") == Some(Str(TypeName(a.kind)))
    ensures Get(AssetJson(id, a), "path") == Some(Str(a.path))
  {
    var r := AssetJson(id, a);
    AssetJsonShape(id, a);
    var off := if a.kind.Image? then 0 else 1;
    assert r[off + 3] == ("type", Str(TypeName(a.kind)));
    assert r[off + 1] == ("path", Str(a.path));
    GetAt(r, off + 3);
    GetAt(r, off + 1);
    if !a.kind.Image? {
      GetAt(r, 0);
    }
  }

  lemma AssetJsonKeys(id: string, a: Asset)
    ensures Keys(AssetJson(id, a)) == RecordKeys(a.kind)
  {
  }

  lemma RecordKeysDistinct(k: Kind)
    ensures forall i, j :: 0 <= i < j < |RecordKeys(k)| ==> RecordKeys(k)[i] != RecordKeys(k)[j]
  {
  }

  /** The whole scan result as a dict of records. */
  function CatalogJson(es: seq<Entry>): (r: seq<Field>)
    ensures Keys(r) == Keys(es)
  {
    seq(|es|, i requires 0 <= i < |es| => (es[i].0, Obj(AssetJson(es[i].0, es[i].1))))
  }

  /** Every record in the stored catalog is a dict, and the catalog is one. */
  lemma CatalogWellFormed(es: seq<Entry>)
    requires DistinctKeys(es)
    ensures WellFormed(Obj(CatalogJson(es)))
  {
    var r := CatalogJson(es);
    DistinctSameKeys(es, r);
    forall i | 0 <= i < |r| ensures WellFormed(r[i].1) {
      AssetJsonShape(es[i].0, es[i].1);
    }
  }
}
