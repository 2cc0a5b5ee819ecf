/** The pixmap cache and the table builder of support_files/workers.py. */
module Workers {
  import opened Common
  import opened Dict
  import opened Json

  // ---------------------------------------------------------------------------
  // PixmapCache: a dict of pixmaps plus a least-recently-used order
  // ---------------------------------------------------------------------------

  /** The size PixmapCache() gets without an argument. */
  const DefaultMaxSize := 100
  /** The size of the module-wide cache instance. */
  const GlobalMaxSize := 150

  /** list.remove(x): the list without its first occurrence of x. */
  function RemoveFirst(s: seq<string>, x: string): (r: seq<string>)
    requires x in s
    ensures |r| == |s| - 1
  {
    if s[0] == x then s[1..] else [s[0]] + RemoveFirst(s[1..], x)
  }

  /** Removing a member of a duplicate-free list removes exactly that member. */
  lemma {:induction false} RemoveFirstSpec(s: seq<string>, x: string)
    requires x in s && NoDup(s)
    ensures NoDup(RemoveFirst(s, x))
    ensures Elements(RemoveFirst(s, x)) == Elements(s) - {x}
  {
    RemoveFirstMembers(s, x);
    var r := RemoveFirst(s, x);
    assert forall y :: y in Elements(r) <==> y in Elements(s) - {x};
  }

  lemma {:induction false} RemoveFirstMembers(s: seq<string>, x: string)
    requires x in s && NoDup(s)
    ensures NoDup(RemoveFirst(s, x))
    ensures forall y :: y in RemoveFirst(s, x) <==> y in s && y != x
  {
    assert s == [s[0]] + s[1..];
    if s[0] != x {
      var t := RemoveFirst(s[1..], x);
      RemoveFirstMembers(s[1..], x);
      assert s[0] !in t;
      var r := [s[0]] + t;
      forall i, j | 0 <= i < j < |r| ensures r[i] != r[j] {
        if i > 0 {
          assert r[i] == t[i - 1] && r[j] == t[j - 1];
        } else {
          assert r[j] in t;
        }
      }
    }
  }

  /** Appending a new member keeps a list duplicate-free. */
  lemma AppendNew(s: seq<string>, x: string)
    requires NoDup(s) && x !in s
    ensures NoDup(s + [x])
    ensures Elements(s + [x]) == Elements(s) + {x}
  {
  }

  /** How many entries a cache of the given max_size can hold: a cache with
      max_size <= 0 stays empty, because putting a new path raises. */
  function Capacity(maxSize: int): nat {
    if maxSize < 0 then 0 else maxSize
  }

  /** The cache invariant on a dict, its order list and max_size: the order
      list holds every cached path exactly once and nothing else, and the
      cache is within its capacity. */
  predicate CacheInv<P>(c: map<string, P>, order: seq<string>, maxSize: int) {
    && NoDup(order)
    && c.Keys == Elements(order)
    && |order| <= Capacity(maxSize)
  }

  /** The number of cached entries is the length of the order list and never
      exceeds max_size when max_size >= 1. */
  lemma CacheSize<P>(c: map<string, P>, order: seq<string>, maxSize: int)
    requires CacheInv(c, order, maxSize)
    ensures |c| == |order| <= Capacity(maxSize)
    ensures maxSize >= 1 ==> |c| <= maxSize
  {
    ElementsCount(order);
    assert c.Keys == Elements(order);
  }

  /** Re-putting or reading a cached path moves it to the end. */
  lemma MoveToEnd<P>(c: map<string, P>, order: seq<string>, maxSize: int, path: string, pixmap: P)
    requires CacheInv(c, order, maxSize) && path in c
    ensures CacheInv(c, RemoveFirst(order, path) + [path], maxSize)
    ensures CacheInv(c[path := pixmap], RemoveFirst(order, path) + [path], maxSize)
  {
    RemoveFirstSpec(order, path);
    AppendNew(RemoveFirst(order, path), path);
  }

  /** Evicting the front path and adding a new one keeps the invariant. */
  lemma EvictAndAdd<P>(c: map<string, P>, order: seq<string>, maxSize: int, path: string, pixmap: P)
    requires CacheInv(c, order, maxSize) && path !in c && order != []
    ensures CacheInv((c - {order[0]})[path := pixmap], order[1..] + [path], maxSize)
  {
    assert order == [order[0]] + order[1..];
    RemoveFirstSpec(order, order[0]);
    AppendNew(order[1..], path);
  }

  /** Adding a new path below the capacity keeps the invariant. */
  lemma Add<P>(c: map<string, P>, order: seq<string>, maxSize: int, path: string, pixmap: P)
    requires CacheInv(c, order, maxSize) && path !in c && |c| < maxSize
    ensures CacheInv(c[path := pixmap], order + [path], maxSize)
  {
    CacheSize(c, order, maxSize);
    AppendNew(order, path);
  }

  class PixmapCache<P> {
    var cache: map<string, P>
    var accessOrder: seq<string>
    var maxSize: int

    predicate Valid()
      reads this
    {
      CacheInv(cache, accessOrder, maxSize)
    }

    constructor(maxSize: int := DefaultMaxSize)
      ensures Valid()
      ensures cache == map[] && accessOrder == [] && this.maxSize == maxSize
    {
      cache := map[];
      accessOrder := [];
      this.maxSize := maxSize;
    }

    /** A hit returns the pixmap and makes its path the most recently used;
        a miss returns nothing and changes nothing. */
    method Get(path: string) returns (r: Option<P>)
      requires Valid()
      modifies this
      ensures Valid()
      ensures cache == old(cache) && maxSize == old(maxSize)
      ensures path in cache ==> r == Some(cache[path])
      ensures path in cache ==> accessOrder == RemoveFirst(old(accessOrder), path) + [path]
      ensures path !in cache ==> r == None && accessOrder == old(accessOrder)
    {
      if path in cache {
        MoveToEnd(cache, accessOrder, maxSize, path, cache[path]);
        accessOrder := RemoveFirst(accessOrder, path);
        accessOrder := accessOrder + [path];
        return Some(cache[path]);
      }
      return None;
    }

    /** Stores a pixmap as the most recently used entry. A present path is
        replaced and moved to the end; a new path in a full cache first
        evicts the least recently used one, the front of the order. With
        max_size <= 0 the eviction pops from an empty list, which raises
        IndexError: `ok` is false and nothing has changed. */
    method Put(path: string, pixmap: P) returns (ok: bool)
      requires Valid()
      modifies this
      ensures Valid() && maxSize == old(maxSize)
      ensures !ok <==> path !in old(cache) && maxSize <= 0
      ensures !ok ==> cache == old(cache) && accessOrder == old(accessOrder)
      ensures ok && path in old(cache) ==>
                cache == old(cache)[path := pixmap]
                && accessOrder == RemoveFirst(old(accessOrder), path) + [path]
      ensures ok && path !in old(cache) && |old(cache)| >= maxSize ==>
                cache == (old(cache) - {old(accessOrder)[0]})[path := pixmap]
                && accessOrder == old(accessOrder)[1..] + [path]
      ensures ok && path !in old(cache) && |old(cache)| < maxSize ==>
                cache == old(cache)[path := pixmap]
                && accessOrder == old(accessOrder) + [path]
    {
      CacheSize(cache, accessOrder, maxSize);
      if path in cache {
        MoveToEnd(cache, accessOrder, maxSize, path, pixmap);
        accessOrder := RemoveFirst(accessOrder, path);
      } else if |cache| >= maxSize {
        if accessOrder == [] {
          return false;
        }
        EvictAndAdd(cache, accessOrder, maxSize, path, pixmap);
        var oldest := accessOrder[0];
        accessOrder := accessOrder[1..];
        cache := cache - {oldest};
      } else {
        Add(cache, accessOrder, maxSize, path, pixmap);
      }
      cache := cache[path := pixmap];
      accessOrder := accessOrder + [path];
      ok := true;
    }

    /** Empties the cache and the order list. */
    method Clear()
      requires Valid()
      modifies this
      ensures Valid() && maxSize == old(maxSize)
      ensures cache == map[] && accessOrder == []
    {
      cache := map[];
      accessOrder := [];
    }
  }

  /** The eviction rule as a statement about the entries: a new path put into
      a full cache removes exactly the least recently used path and adds the
      new one; every other entry keeps its pixmap. */
  lemma EvictsOnlyOldest<P>(c: map<string, P>, order: seq<string>, path: string, pixmap: P, k: string)
    requires NoDup(order) && c.Keys == Elements(order) && order != [] && path !in c
    ensures var c' := (c - {order[0]})[path := pixmap];
            && (k in c' <==> k == path || (k in c && k != order[0]))
            && (k in c' && k != path ==> c'[k] == c[k])
            && |c'| == |c|
  {
    assert order[0] in Elements(order);
    SwapKeepsSize(c, order[0], path, pixmap);
  }

  /** Dropping a present key and adding an absent one keeps the size. */
  lemma SwapKeepsSize<P>(c: map<string, P>, gone: string, path: string, pixmap: P)
    requires gone in c && path !in c
    ensures |(c - {gone})[path := pixmap]| == |c|
  {
    var c1 := c - {gone};
    assert c1.Keys == c.Keys - {gone};
    assert |c1.Keys| == |c.Keys| - 1;
    var c' := c1[path := pixmap];
    assert c'.Keys == c1.Keys + {path} && path !in c1.Keys;
    assert |c'.Keys| == |c1.Keys| + 1;
  }

  // ---------------------------------------------------------------------------
  // TableBuilderWorker.run: rows in batches of 250
  // ---------------------------------------------------------------------------

  const BatchSize := 250
  /** A status message goes out every second batch and at the end. */
  const StatusEvery := 500

  /** The fields run() never repeats in the extra-info text. */
  const Excluded: set<string> := {"name", "type", "path", "ctime", "thumbnail"}

  /** The row_data dict of one catalog entry. */
  datatype Row = Row(thumbnail: Value, name: Value, kind: Value, extraInfo: string, path: Value, fileId: string)

  /** The signals run() emits, in order. Status carries the "count/total"
      of the message; its progress percentage is not modelled. */
  datatype TableEvent = Batch(rows: seq<Row>) | Status(count: nat, total: nat) | Finished

  /** The value under k, or the empty string when the record lacks k. */
  function GetOr(info: seq<Field>, k: string): (r: Value)
    ensures HasKey(info, k) ==> Get(info, k) == Some(r)
    ensures !HasKey(info, k) ==> r == Str("")
  {
    match Get(info, k)
    case Some(v) => v
    case None => Str("")
  }

  /** The fields of a record that extra_info lists, in record order. */
  function ExtraFields(info: seq<Field>): (r: seq<Field>)
    ensures forall f :: f in r <==> f in info && f.0 !in Excluded
  {
    if info == [] then []
    else
      var init := info[..|info| - 1];
      var last := info[|info| - 1];
      assert info == init + [last];
      ExtraFields(init) + (if last.0 in Excluded then [] else [last])
  }

  /** Filtering keeps the record order: the extra fields of two consecutive
      pieces of a record are those of the first followed by those of the
      second. */
  lemma {:induction false} ExtraFieldsConcat(a: seq<Field>, b: seq<Field>)
    ensures ExtraFields(a + b) == ExtraFields(a) + ExtraFields(b)
  {
    if b != [] {
      var bi := b[..|b| - 1];
      assert a + b == (a + bi) + [b[|b| - 1]];
      var last := b[|b| - 1];
      var tail := if last.0 in Excluded then [] else [last];
      assert (a + b)[..|a + b| - 1] == a + bi;
      assert ExtraFields(a + b) == ExtraFields(a + bi) + tail;
      assert ExtraFields(b) == ExtraFields(bi) + tail;
      ExtraFieldsConcat(a, bi);
    } else {
      assert a + b == a;
    }
  }

  /** One "k: v" line per extra field; `show` stands for Python's str(). */
  function FieldLines(info: seq<Field>, show: Value -> string): (r: seq<string>)
    ensures |r| == |ExtraFields(info)|
  {
    var fs := ExtraFields(info);
    seq(|fs|, i requires 0 <= i < |fs| => fs[i].0 + ": " + show(fs[i].1))
  }

  /** The formatted ctime, "" when the record has none. `date` stands for
      datetime.fromtimestamp(...).strftime(...), with "" where it raises. */
  function DateText(info: seq<Field>, date: Value -> string): string {
    match Get(info, "ctime")
    case Some(t) => date(t)
    case None => ""
  }

  /** The "Date: ..." line, present when the date text is not empty. */
  function DateLines(info: seq<Field>, date: Value -> string): (r: seq<string>)
    ensures |r| <= 1
  {
    var d := DateText(info, date);
    if d != "" then ["Date: " + d] else []
  }

  /** The lines joined with newlines between them. */
  function JoinLines(lines: seq<string>): string {
    if lines == [] then "" else JoinWith(lines, '\n')
  }

  function ExtraInfo(info: seq<Field>, date: Value -> string, show: Value -> string): string {
    JoinLines(DateLines(info, date) + FieldLines(info, show))
  }

  /** The extra-info lines: the date line if any, then exactly one line per
      field that is not excluded, in record order. */
  lemma ExtraInfoLines(info: seq<Field>, date: Value -> string, show: Value -> string, i: nat)
    requires i < |ExtraFields(info)|
    ensures var lines := DateLines(info, date) + FieldLines(info, show);
            var f := ExtraFields(info)[i];
            && lines[|DateLines(info, date)| + i] == f.0 + ": " + show(f.1)
            && f in info && f.0 !in Excluded
  {
  }

  /** Python's str() of a string is the string itself, so a string field
      shows verbatim after its key. */
  lemma StringFieldLine(info: seq<Field>, date: Value -> string, show: Value -> string, i: nat)
    requires forall s :: show(Str(s)) == s
    requires i < |ExtraFields(info)| && ExtraFields(info)[i].1.Str?
    ensures var f := ExtraFields(info)[i];
            (DateLines(info, date) + FieldLines(info, show))[|DateLines(info, date)| + i] == f.0 + ": " + f.1.s
  {
    ExtraInfoLines(info, date, show, i);
  }

  /** One more item of the record adds its line unless it is excluded. */
  lemma FieldLinesStep(info: seq<Field>, i: nat, show: Value -> string)
    requires i < |info|
    ensures FieldLines(info[..i + 1], show) ==
              FieldLines(info[..i], show)
              + (if info[i].0 in Excluded then [] else [info[i].0 + ": " + show(info[i].1)])
  {
    var p := info[..i + 1];
    assert p[..|p| - 1] == info[..i];
    var tail := if info[i].0 in Excluded then [] else [info[i]];
    assert ExtraFields(p) == ExtraFields(info[..i]) + tail;
  }

  /** The text built for one record in run(): the date line, then the
      extra-field lines, joined. */
  method BuildExtraInfo(info: seq<Field>, date: Value -> string, show: Value -> string) returns (text: string)
    ensures text == ExtraInfo(info, date, show)
  {
    var dateStr := "";
    if HasKey(info, "ctime") {
      dateStr := date(Get(info, "ctime").value);
    }
    var dateLines: seq<string> := [];
    if dateStr != "" {
      dateLines := ["Date: " + dateStr];
    }
    assert dateLines == DateLines(info, date);
    var fieldLines := ExtraLines(info, show);
    text := JoinLines(dateLines + fieldLines);
  }

  /** The loop over the record's items: one line per field that is not
      excluded, in record order. */
  method ExtraLines(info: seq<Field>, show: Value -> string) returns (lines: seq<string>)
    ensures lines == FieldLines(info, show)
  {
    lines := [];
    var i := 0;
    while i < |info|
      invariant 0 <= i <= |info|
      invariant lines == FieldLines(info[..i], show)
    {
      var k := info[i].0;
      var v := info[i].1;
      FieldLinesStep(info, i, show);
      if k !in Excluded {
        lines := lines + [k + ": " + show(v)];
      }
      i := i + 1;
    }
    assert info[..|info|] == info;
  }

  /** The row of one catalog entry. */
  function RowOf(id: string, info: seq<Field>, date: Value -> string, show: Value -> string): Row {
    Row(GetOr(info, "thumbnail"), GetOr(info, "name"), GetOr(info, "type"),
        ExtraInfo(info, date, show), GetOr(info, "path"), id)
  }

  /** A row shows the record's own name, type, path and thumbnail, and ""
      for each one the record lacks. */
  lemma RowFields(id: string, info: seq<Field>, date: Value -> string, show: Value -> string, i: nat)
    requires DistinctKeys(info) && i < |info|
    ensures var r := RowOf(id, info, date, show);
            && (info[i].0 == "name" ==> r.name == info[i].1)
            && (info[i].0 == "type" ==> r.kind == info[i].1)
            && (info[i].0 == "path" ==> r.path == info[i].1)
            && (info[i].0 == "thumbnail" ==> r.thumbnail == info[i].1)
            && r.fileId == id
  {
    GetAt(info, i);
  }

  lemma RowDefaults(id: string, info: seq<Field>, date: Value -> string, show: Value -> string)
    ensures var r := RowOf(id, info, date, show);
            && (!HasKey(info, "name") ==> r.name == Str(""))
            && (!HasKey(info, "type") ==> r.kind == Str(""))
            && (!HasKey(info, "path") ==> r.path == Str(""))
            && (!HasKey(info, "thumbnail") ==> r.thumbnail == Str(""))
  {
  }

  /** One row per catalog entry, in catalog order. */
  function Rows(db: seq<(string, seq<Field>)>, date: Value -> string, show: Value -> string): (r: seq<Row>)
    ensures |r| == |db|
    ensures forall i :: 0 <= i < |db| ==> r[i] == RowOf(db[i].0, db[i].1, date, show)
  {
    seq(|db|, i requires 0 <= i < |db| => RowOf(db[i].0, db[i].1, date, show))
  }

  /** How many entries run() gets to: is_running is read before each entry,
      and the first false ends the loop. */
  function Processed(running: seq<bool>): (r: nat)
    ensures r <= |running|
    ensures forall j :: 0 <= j < r ==> running[j]
    ensures r < |running| ==> !running[r]
  {
    if running == [] || !running[0] then 0 else 1 + Processed(running[1..])
  }

  /** The first false read ends the loop there. */
  lemma ProcessedStops(running: seq<bool>, n: nat)
    requires n <= Processed(running) && n < |running| && !running[n]
    ensures Processed(running) == n
  {
  }

  /** Where the batch that the c-th row (counting from 1) belongs to starts. */
  function BatchStart(c: nat): nat
    requires c >= 1
  {
    ((c - 1) / BatchSize) * BatchSize
  }

  /** What run() emits right after its c-th row. */
  function EmittedAt(rows: seq<Row>, c: nat): seq<TableEvent>
    requires 1 <= c <= |rows|
  {
    if c % BatchSize == 0 || c == |rows| then
      [Batch(rows[BatchStart(c)..c])]
      + (if c % StatusEvery == 0 || c == |rows| then [Status(c, |rows|)] else [])
    else []
  }

  /** Everything run() emits while handling the first n rows. */
  function Emissions(rows: seq<Row>, n: nat): seq<TableEvent>
    requires n <= |rows|
  {
    if n == 0 then [] else Emissions(rows, n - 1) + EmittedAt(rows, n)
  }

  /** The rows collected but not yet emitted after the first c rows. */
  function Pending(rows: seq<Row>, c: nat): seq<Row>
    requires c <= |rows|
  {
    if c == |rows| then [] else rows[(c / BatchSize) * BatchSize..c]
  }

  /** The batch after appending row c is rows[BatchStart(c + 1)..c + 1]; it
      is full exactly when c + 1 is a multiple of the batch size. */
  lemma BatchGrows(rows: seq<Row>, c: nat)
    requires c < |rows|
    ensures Pending(rows, c) + [rows[c]] == rows[BatchStart(c + 1)..c + 1]
    ensures |rows[BatchStart(c + 1)..c + 1]| >= BatchSize <==> (c + 1) % BatchSize == 0
    ensures (c + 1) % BatchSize != 0 && c + 1 < |rows| ==>
              Pending(rows, c + 1) == rows[BatchStart(c + 1)..c + 1]
  {
    assert BatchStart(c + 1) == (c / BatchSize) * BatchSize;
    assert c - (c / BatchSize) * BatchSize == c % BatchSize;
    if (c + 1) % BatchSize != 0 {
      assert (c + 1) / BatchSize == c / BatchSize;
    }
  }

  /** What handling row c does to the pending batch and to the emissions. */
  lemma TableStep(rows: seq<Row>, c: nat, batch: seq<Row>, events: seq<TableEvent>)
    requires c < |rows| && batch == Pending(rows, c) && events == Emissions(rows, c)
    ensures var b := batch + [rows[c]];
            var status := if (c + 1) % StatusEvery == 0 || c + 1 == |rows| then [Status(c + 1, |rows|)] else [];
            if |b| >= BatchSize || c + 1 == |rows| then
              Emissions(rows, c + 1) == events + [Batch(b)] + status && Pending(rows, c + 1) == []
            else
              Emissions(rows, c + 1) == events && Pending(rows, c + 1) == b
  {
    BatchGrows(rows, c);
  }

  /** The row of one entry, as the loop body of run() builds it. */
  method BuildRow(id: string, info: seq<Field>, date: Value -> string, show: Value -> string) returns (row: Row)
    ensures row == RowOf(id, info, date, show)
  {
    var extra := BuildExtraInfo(info, date, show);
    row := Row(GetOr(info, "thumbnail"), GetOr(info, "name"), GetOr(info, "type"), extra, GetOr(info, "path"), id);
  }

  /** The row joins the pending batch; a full batch, or the last row, sends
      the batch out, with a status every StatusEvery rows and at the end. */
  method AddRow(ghost rows: seq<Row>, count: nat, total: nat, row: Row, batch: seq<Row>, events: seq<TableEvent>)
    returns (batch': seq<Row>, events': seq<TableEvent>)
    requires count < |rows| && total == |rows| && row == rows[count]
    requires batch == Pending(rows, count) && events == Emissions(rows, count)
    ensures batch' == Pending(rows, count + 1) && events' == Emissions(rows, count + 1)
  {
    TableStep(rows, count, batch, events);
    var c := count + 1;
    batch' := batch + [row];
    events' := events;
    if |batch'| >= BatchSize || c == total {
      events' := events' + [Batch(batch')];
      if c % StatusEvery == 0 || c == total {
        events' := events' + [Status(c, total)];
      }
      batch' := [];
    }
  }

  /** run() itself. `running[i]` is what `is_running` reads before entry i;
      `date` and `show` stand for the date formatting and str(). An empty
      catalog skips straight to `finished`. */
  method BuildTable(database: seq<(string, seq<Field>)>, running: seq<bool>,
                    date: Value -> string, show: Value -> string) returns (events: seq<TableEvent>)
    requires |running| == |database|
    ensures events == Emissions(Rows(database, date, show), Processed(running)) + [Finished]
    ensures database == [] ==> events == [Finished]
  {
    ghost var rows := Rows(database, date, show);
    events := [];
    if database != [] {
      var batch: seq<Row> := [];
      var total := |database|;
      var count := 0;
      while count < total
        invariant count <= Processed(running)
        invariant batch == Pending(rows, count)
        invariant events == Emissions(rows, count)
      {
        if !running[count] {
          ProcessedStops(running, count);
          break;
        }
        var row := BuildRow(database[count].0, database[count].1, date, show);
        batch, events := AddRow(rows, count, total, row, batch, events);
        count := count + 1;
      }
      assert count == Processed(running);
    }
    events := events + [Finished];
  }

  // ---------------------------------------------------------------------------
  // What the emitted batches amount to
  // ---------------------------------------------------------------------------

  /** The row lists of the Batch events, in order. */
  function BatchesOf(events: seq<TableEvent>): (r: seq<seq<Row>>) {
    if events == [] then []
    else
      var init := events[..|events| - 1];
      var last := events[|events| - 1];
      BatchesOf(init) + (if last.Batch? then [last.rows] else [])
  }

  lemma {:induction false} BatchesOfConcat(a: seq<TableEvent>, b: seq<TableEvent>)
    ensures BatchesOf(a + b) == BatchesOf(a) + BatchesOf(b)
  {
    if b != [] {
      var bi := b[..|b| - 1];
      assert a + b == (a + bi) + [b[|b| - 1]];
      var last := b[|b| - 1];
      var tail := if last.Batch? then [last.rows] else [];
      assert (a + b)[..|a + b| - 1] == a + bi;
      assert BatchesOf(a + b) == BatchesOf(a + bi) + tail;
      assert BatchesOf(b) == BatchesOf(bi) + tail;
      BatchesOfConcat(a, bi);
    } else {
      assert a + b == a;
    }
  }

  /** A list cut into consecutive pieces of BatchSize, the last one shorter. */
  function Chunks(rows: seq<Row>): seq<seq<Row>>
    decreases |rows|
  {
    if rows == [] then []
    else if |rows| <= BatchSize then [rows]
    else [rows[..BatchSize]] + Chunks(rows[BatchSize..])
  }

  function Flatten(bs: seq<seq<Row>>): seq<Row> {
    if bs == [] then [] else bs[0] + Flatten(bs[1..])
  }

  lemma {:induction false} FlattenAppend(bs: seq<seq<Row>>, b: seq<Row>)
    ensures Flatten(bs + [b]) == Flatten(bs) + b
  {
    if bs != [] {
      assert (bs + [b])[1..] == bs[1..] + [b];
      FlattenAppend(bs[1..], b);
    }
  }

  /** Chunking loses nothing: the pieces concatenate to the list. */
  lemma {:induction false} ChunksFlatten(rows: seq<Row>)
    ensures Flatten(Chunks(rows)) == rows
    decreases |rows|
  {
    if |rows| > BatchSize {
      ChunksFlatten(rows[BatchSize..]);
      assert rows == rows[..BatchSize] + rows[BatchSize..];
    }
  }

  /** Every piece is non-empty and at most BatchSize long, and every piece
      but the last is exactly BatchSize long. */
  lemma {:induction false} ChunksSizes(rows: seq<Row>, i: nat)
    requires i < |Chunks(rows)|
    ensures 1 <= |Chunks(rows)[i]| <= BatchSize
    ensures i < |Chunks(rows)| - 1 ==> |Chunks(rows)[i]| == BatchSize
    decreases |rows|
  {
    if |rows| > BatchSize && i > 0 {
      ChunksSizes(rows[BatchSize..], i - 1);
    }
  }

  /** Adding a short last piece after whole pieces adds one chunk. */
  lemma {:induction false} ChunksAppend(a: seq<Row>, b: seq<Row>)
    requires |a| % BatchSize == 0 && 1 <= |b| <= BatchSize
    ensures Chunks(a + b) == Chunks(a) + [b]
    decreases |a|
  {
    if a != [] {
      var rest := a[BatchSize..];
      assert |rest| % BatchSize == 0;
      assert (a + b)[..BatchSize] == a[..BatchSize];
      assert (a + b)[BatchSize..] == rest + b;
      ChunksAppend(rest, b);
      if |a| == BatchSize {
        assert a[..BatchSize] == a && rest == [];
      }
    } else {
      assert a + b == b;
    }
  }

  /** How many leading rows have gone out in batches after the first n:
      all of them at the end, otherwise the whole batches only. */
  function Sent(rows: seq<Row>, n: nat): (r: nat)
    requires n <= |rows|
    ensures r <= n
  {
    if n == |rows| then n else (n / BatchSize) * BatchSize
  }

  /** The batch emitted right after row n, if any. */
  lemma EmittedBatch(rows: seq<Row>, n: nat)
    requires 1 <= n <= |rows|
    ensures BatchesOf(EmittedAt(rows, n)) ==
              if n % BatchSize == 0 || n == |rows| then [rows[BatchStart(n)..n]] else []
  {
    if n % BatchSize == 0 || n == |rows| {
      var b := [Batch(rows[BatchStart(n)..n])];
      var status := if n % StatusEvery == 0 || n == |rows| then [Status(n, |rows|)] else [];
      BatchesOfConcat(b, status);
      assert b[..0] == [];
      if status != [] {
        assert status[..0] == [];
      }
    }
  }

  /** Before row n the sent rows end where its batch starts; after it they
      end at n when a batch goes out and stay put otherwise. */
  lemma SentStep(rows: seq<Row>, n: nat)
    requires 1 <= n <= |rows|
    ensures Sent(rows, n - 1) == BatchStart(n)
    ensures Sent(rows, n) == if n % BatchSize == 0 || n == |rows| then n else BatchStart(n)
  {
    if n % BatchSize != 0 {
      assert n / BatchSize == (n - 1) / BatchSize;
    }
  }

  /** The batch of row n starts at a multiple of the batch size and holds
      row n and at most BatchSize - 1 rows before it. */
  lemma BatchStartBounds(n: nat)
    requires n >= 1
    ensures BatchStart(n) % BatchSize == 0 && 1 <= n - BatchStart(n) <= BatchSize
  {
  }

  /** The batches emitted for the first n rows are the rows sent so far,
      cut into chunks. */
  lemma {:induction false} EmissionsBatches(rows: seq<Row>, n: nat)
    requires n <= |rows|
    ensures BatchesOf(Emissions(rows, n)) == Chunks(rows[..Sent(rows, n)])
  {
    if n == 0 {
      assert rows[..0] == [];
    } else {
      EmissionsBatches(rows, n - 1);
      SentStep(rows, n);
      if n % BatchSize == 0 || n == |rows| {
        EmissionsFlush(rows, n);
      } else {
        EmissionsHold(rows, n);
      }
    }
  }

  /** Row n completes a batch: the batch goes out and joins the chunks. */
  lemma EmissionsFlush(rows: seq<Row>, n: nat)
    requires 1 <= n <= |rows| && (n % BatchSize == 0 || n == |rows|)
    requires BatchesOf(Emissions(rows, n - 1)) == Chunks(rows[..BatchStart(n)])
    ensures BatchesOf(Emissions(rows, n)) == Chunks(rows[..n])
  {
    var prev := Emissions(rows, n - 1);
    var e := EmittedAt(rows, n);
    assert Emissions(rows, n) == prev + e;
    BatchesOfConcat(prev, e);
    EmittedBatch(rows, n);
    ChunksOfPrefix(rows, n);
  }

  /** The chunks of the first n rows are those up to the start of row n's
      batch, then that batch. */
  lemma ChunksOfPrefix(rows: seq<Row>, n: nat)
    requires 1 <= n <= |rows|
    ensures Chunks(rows[..n]) == Chunks(rows[..BatchStart(n)]) + [rows[BatchStart(n)..n]]
  {
    BatchStartBounds(n);
    var start := BatchStart(n);
    var a, b := rows[..start], rows[start..n];
    assert a + b == rows[..n];
    ChunksAppend(a, b);
  }

  /** Row n leaves its batch open: nothing goes out. */
  lemma EmissionsHold(rows: seq<Row>, n: nat)
    requires 1 <= n <= |rows| && n % BatchSize != 0 && n != |rows|
    ensures BatchesOf(Emissions(rows, n)) == BatchesOf(Emissions(rows, n - 1))
  {
    var prev := Emissions(rows, n - 1);
    var e := EmittedAt(rows, n);
    assert Emissions(rows, n) == prev + e;
    BatchesOfConcat(prev, e);
    EmittedBatch(rows, n);
  }

  /** Without a stop request, the batches concatenate to one row per catalog
      entry in catalog order, each at most 250 rows and all but the last
      exactly 250. */
  lemma CompletedRun(database: seq<(string, seq<Field>)>, running: seq<bool>,
                     date: Value -> string, show: Value -> string, i: nat)
    requires |running| == |database| && false !in running
    ensures var rows := Rows(database, date, show);
            var bs := BatchesOf(Emissions(rows, Processed(running)));
            && Flatten(bs) == rows
            && (i < |bs| ==> 1 <= |bs[i]| <= BatchSize)
            && (i < |bs| - 1 ==> |bs[i]| == BatchSize)
  {
    var rows := Rows(database, date, show);
    assert Processed(running) == |rows|;
    EmissionsBatches(rows, |rows|);
    assert rows[..|rows|] == rows;
    ChunksFlatten(rows);
    if i < |Chunks(rows)| {
      ChunksSizes(rows, i);
    }
  }

  /** After a stop request before entry n, the rows emitted are the first
      whole batches only: a prefix of the catalog rows; the partial batch
      collected since the last emission is dropped. */
  lemma StoppedRun(database: seq<(string, seq<Field>)>, running: seq<bool>,
                   date: Value -> string, show: Value -> string)
    requires |running| == |database| && false in running
    ensures var rows := Rows(database, date, show);
            var n := Processed(running);
            Flatten(BatchesOf(Emissions(rows, n))) == rows[..(n / BatchSize) * BatchSize]
  {
    var rows := Rows(database, date, show);
    var n := Processed(running);
    assert n < |running|;
    EmissionsBatches(rows, n);
    ChunksFlatten(rows[..(n / BatchSize) * BatchSize]);
  }

  /** A Status message goes out after row c exactly when c is a multiple of
      500 or the last row, and carries the catalog size. */
  lemma {:induction false} StatusEvents(rows: seq<Row>, n: nat, c: nat, t: nat)
    requires n <= |rows|
    ensures Status(c, t) in Emissions(rows, n) <==>
              1 <= c <= n && t == |rows| && (c % StatusEvery == 0 || c == |rows|)
  {
    if n > 0 {
      StatusEvents(rows, n - 1, c, t);
      var e := EmittedAt(rows, n);
      assert Emissions(rows, n) == Emissions(rows, n - 1) + e;
      assert Status(c, t) in e <==> c == n && t == |rows| && (c % StatusEvery == 0 || c == |rows|) by {
        if n % BatchSize == 0 || n == |rows| {
          if n % StatusEvery == 0 {
            assert n % BatchSize == 0;
          }
        } else {
          assert n % StatusEvery != 0;
        }
      }
    }
  }
}
