/** The small decisions of the main window (LocalAssetBrowser.py): the field
    order of the info panel, which paths a drag carries, the batched creation
    of grid widgets, and the row-height clamps of the table. */
module Browser {
  import opened Common
  import opened Dict
  import opened Json
  import opened Assets
  import CatalogMerge

  // ---------------------------------------------------------------------------
  // load_file: the order of the fields in the info panel
  // ---------------------------------------------------------------------------

  /** The fields the panel shows first, in this order, when a record has them. */
  const PanelOrder: seq<string> :=
    ["name", "type", "first_frame", "last_frame", "duration", "fps", "size", "path"]

  lemma PanelOrderDistinct()
    ensures NoDup(PanelOrder)
  {
  }

  /** The dict comprehension of load_file: each listed name the record has,
      with its value, in list order; the list has no repeats, so each step
      appends. */
  function FixedFields(file: seq<Field>, order: seq<string>): seq<Field> {
    if order == [] then []
    else
      var k := order[|order| - 1];
      FixedFields(file, order[..|order| - 1]) + (match Get(file, k) case None => [] case Some(v) => [(k, v)])
  }

  /** The fixed fields, then every field the comprehension did not place, in
      record order. */
  function Arrange(file: seq<Field>, order: seq<string>): seq<Field> {
    var fixed := FixedFields(file, order);
    fixed + CatalogMerge.NewEntries(fixed, file)
  }

  /** The dict load_file iterates to fill the panel. */
  function InfoPanel(file: seq<Field>): seq<Field> {
    Arrange(file, PanelOrder)
  }

  /** load_file's ordering: the comprehension, then the loop that appends the
      keys it has not placed yet (the add-missing loop of set_file_list). */
  method SortedFields(file: seq<Field>) returns (sorted: seq<Field>)
    requires DistinctKeys(file)
    ensures sorted == InfoPanel(file)
    ensures DistinctKeys(sorted) && |sorted| == |file|
    ensures forall e :: e in sorted <==> e in file
  {
    sorted := FixedFields(file, PanelOrder);
    sorted := CatalogMerge.AddMissing(sorted, file);
    PanelOrderDistinct();
    ArrangePermutation(file, PanelOrder);
  }

  /** The fixed fields: exactly the listed names the record has, each with
      the record's value, each once. */
  lemma {:induction false} FixedFieldsMembers(file: seq<Field>, order: seq<string>)
    requires NoDup(order)
    ensures forall k :: HasKey(FixedFields(file, order), k) <==> k in order && HasKey(file, k)
    ensures forall e :: e in FixedFields(file, order) ==> e.0 in order && Get(file, e.0) == Some(e.1)
    ensures DistinctKeys(FixedFields(file, order))
  {
    if order != [] {
      var init := order[..|order| - 1];
      var k := order[|order| - 1];
      var prev := FixedFields(file, init);
      var tail := match Get(file, k) case None => [] case Some(v) => [(k, v)];
      assert order == init + [k];
      FixedFieldsMembers(file, init);
      assert k !in init;
      KeysConcat(prev, tail);
      if tail != [] {
        DistinctConcat(prev, tail);
      }
    }
  }

  lemma {:induction false} FixedFieldsNames(file: seq<Field>, order: seq<string>)
    ensures forall i :: 0 <= i < |FixedFields(file, order)| ==> FixedFields(file, order)[i].0 in order
  {
    if order != [] {
      var init := order[..|order| - 1];
      FixedFieldsNames(file, init);
      assert order == init + [order[|order| - 1]];
    }
  }

  /** The fixed fields come in the order of the list. */
  lemma {:induction false} FixedFieldsOrder(file: seq<Field>, order: seq<string>)
    requires NoDup(order)
    ensures forall i, j :: 0 <= i < j < |FixedFields(file, order)| ==>
              FixedFields(file, order)[i].0 in order && FixedFields(file, order)[j].0 in order &&
              FirstIndex(order, FixedFields(file, order)[i].0) < FirstIndex(order, FixedFields(file, order)[j].0)
  {
    if order != [] {
      var init := order[..|order| - 1];
      var k := order[|order| - 1];
      assert order == init + [k];
      var prev := FixedFields(file, init);
      FixedFieldsOrder(file, init);
      FixedFieldsNames(file, init);
      var r := FixedFields(file, order);
      forall i, j | 0 <= i < j < |r|
        ensures r[i].0 in order && r[j].0 in order && FirstIndex(order, r[i].0) < FirstIndex(order, r[j].0)
      {
        assert r[i] == prev[i] && prev[i] in prev;
        FirstIndexPrefix(order, |init|, r[i].0);
        if j < |prev| {
          assert r[j] == prev[j] && prev[j] in prev;
          FirstIndexPrefix(order, |init|, r[j].0);
        } else {
          assert r[j].0 == k && k !in init;
          LastFirstIndex(init, k);
        }
      }
      assert forall i, j :: 0 <= i < j < |r| ==>
               r[i].0 in order && r[j].0 in order && FirstIndex(order, r[i].0) < FirstIndex(order, r[j].0);
    } else {
      assert FixedFields(file, order) == [];
    }
  }

  /** The panel shows every field of the record once, with its own value,
      and nothing else: a permutation of the record. */
  lemma ArrangePermutation(file: seq<Field>, order: seq<string>)
    requires DistinctKeys(file) && NoDup(order)
    ensures DistinctKeys(Arrange(file, order)) && |Arrange(file, order)| == |file|
    ensures forall e :: e in Arrange(file, order) <==> e in file
  {
    var fixed := FixedFields(file, order);
    var rest := CatalogMerge.NewEntries(fixed, file);
    FixedFieldsMembers(file, order);
    CatalogMerge.NewEntriesMembers(fixed, file);
    CatalogMerge.NewEntriesDistinct(fixed, file);
    DistinctConcat(fixed, rest);
    var r := fixed + rest;
    forall e | e in file ensures e in r {
      var i :| 0 <= i < |file| && file[i] == e;
      GetAt(file, i);
      if HasKey(fixed, e.0) {
        var j := Find(fixed, e.0).value;
        assert fixed[j] in fixed;
      }
    }
    forall e | e in fixed ensures e in file {
      var i := Find(file, e.0).value;
    }
    SameMembersLength(r, file);
  }

  /** Two dicts with the same entries have the same size. */
  lemma SameMembersLength(a: seq<Field>, b: seq<Field>)
    requires DistinctKeys(a) && DistinctKeys(b)
    requires forall e :: e in a <==> e in b
    ensures |a| == |b|
  {
    var ka := Keys(a);
    var kb := Keys(b);
    forall i, j | 0 <= i < j < |ka| ensures ka[i] != ka[j] {}
    forall i, j | 0 <= i < j < |kb| ensures kb[i] != kb[j] {}
    forall x ensures x in ka <==> x in kb {
      if x in ka {
        var i :| 0 <= i < |a| && ka[i] == x;
        assert a[i] in b;
      }
      if x in kb {
        var i :| 0 <= i < |b| && kb[i] == x;
        assert b[i] in a;
      }
    }
    ElementsCount(ka);
    ElementsCount(kb);
    assert Elements(ka) == Elements(kb);
  }

  /** The layout of the panel: the fixed fields the record has come first, in
      the fixed order; after them come all the other fields, in record order. */
  lemma ArrangeLayout(file: seq<Field>, order: seq<string>)
    requires DistinctKeys(file) && NoDup(order)
    ensures var m := |FixedFields(file, order)|;
            m <= |Arrange(file, order)| &&
            (forall i :: 0 <= i < |Arrange(file, order)| ==> (Arrange(file, order)[i].0 in order <==> i < m)) &&
            Arrange(file, order)[m..] == Others(file, order)
    ensures forall i, j :: 0 <= i < j < |FixedFields(file, order)| ==>
              Arrange(file, order)[i].0 in order && Arrange(file, order)[j].0 in order &&
              FirstIndex(order, Arrange(file, order)[i].0) < FirstIndex(order, Arrange(file, order)[j].0)
  {
    var fixed := FixedFields(file, order);
    var rest := CatalogMerge.NewEntries(fixed, file);
    var r := fixed + rest;
    FixedFieldsMembers(file, order);
    FixedFieldsOrder(file, order);
    CatalogMerge.NewEntriesMembers(fixed, file);
    NewEntriesOthers(fixed, file, order);
    forall i | 0 <= i < |r| ensures r[i].0 in order <==> i < |fixed| {
      if i < |fixed| {
        assert r[i] in fixed;
      } else {
        assert r[i] == rest[i - |fixed|];
        assert r[i] in rest;
      }
    }
    assert r[|fixed|..] == rest;
  }

  /** The record's fields whose names are not listed, in record order. */
  function Others(file: seq<Field>, order: seq<string>): seq<Field> {
    if file == [] then []
    else
      var last := file[|file| - 1];
      Others(file[..|file| - 1], order) + (if last.0 in order then [] else [last])
  }

  /** Against a dict holding exactly the listed names among those of the
      record, the new entries of the record are its other fields. */
  lemma {:induction false} NewEntriesOthers(fixed: seq<Field>, file: seq<Field>, order: seq<string>)
    requires forall k :: HasKey(file, k) ==> (HasKey(fixed, k) <==> k in order)
    ensures CatalogMerge.NewEntries(fixed, file) == Others(file, order)
    decreases |file|
  {
    if file != [] {
      var init := file[..|file| - 1];
      var last := file[|file| - 1];
      assert file == init + [last];
      KeysAppend(init, last);
      assert HasKey(file, last.0);
      NewEntriesOthers(fixed, init, order);
    }
  }

  /** The two panel facts for the order list of load_file. */
  lemma InfoPanelSpec(file: seq<Field>)
    requires DistinctKeys(file)
    ensures DistinctKeys(InfoPanel(file)) && |InfoPanel(file)| == |file|
    ensures forall e :: e in InfoPanel(file) <==> e in file
    ensures var m := |FixedFields(file, PanelOrder)|;
            (forall i :: 0 <= i < |InfoPanel(file)| ==> (InfoPanel(file)[i].0 in PanelOrder <==> i < m)) &&
            InfoPanel(file)[m..] == Others(file, PanelOrder)
  {
    PanelOrderDistinct();
    ArrangePermutation(file, PanelOrder);
    ArrangeLayout(file, PanelOrder);
  }

  // ---------------------------------------------------------------------------
  // Drag and drop: which rows, which paths
  // ---------------------------------------------------------------------------

  /** The two cells of a table row that a drag reads: the type text
      (column 2) and the path (column 4); a missing cell is None. */
  datatype TableRow = TableRow(typeText: Option<string>, path: Option<string>)

  /** A type text names a sequence when its lower-case form contains "sequence". */
  predicate IsSequenceType(typeText: string) {
    Contains(Lower(typeText), "sequence")
  }

  /** _get_drag_path_for_row: nothing for a row outside the table or without a
      path cell; the containing folder for a sequence row; else the path. */
  function DragPath(table: seq<TableRow>, row: int): (r: Option<string>)
    ensures r.None? <==> !(0 <= row < |table|) || table[row].path.None?
  {
    if !(0 <= row < |table|) then None
    else
      match table[row].path
      case None => None
      case Some(path) =>
        var typeText := match table[row].typeText case None => "" case Some(t) => t;
        if IsSequenceType(typeText) then Some(Dirname(path)) else Some(path)
  }

  lemma SequenceTypeText()
    ensures IsSequenceType("sequence")
    ensures !IsSequenceType("video") && !IsSequenceType("image") && !IsSequenceType("")
  {
    assert Lower("sequence") == "sequence";
    assert OccursAt(Lower("sequence"), "sequence", 0);
  }

  /** A row of the table shows the record's type name and its path: a
      sequence row drags the folder the frames are in, a video or image row
      drags the file itself. */
  lemma DragPathOfRecord(table: seq<TableRow>, row: int, a: Asset)
    requires 0 <= row < |table|
    requires table[row] == TableRow(Some(TypeName(a.kind)), Some(a.path))
    ensures DragPath(table, row) == Some(if a.kind.Sequence? then Dirname(a.path) else a.path)
  {
    SequenceTypeText();
  }

  /** A sequence whose representative frame sits in a folder drags exactly
      that folder. */
  lemma DragSequenceFolder(table: seq<TableRow>, row: int, dir: string, frame: string)
    requires 0 <= row < |table| && dir != [] && dir[|dir| - 1] != '/' && '/' !in frame
    requires table[row] == TableRow(Some("sequence"), Some(Join(dir, frame)))
    ensures DragPath(table, row) == Some(dir)
  {
    SequenceTypeText();
    DirnameOfJoin(dir, frame);
  }

  /** The rows a drag carries: all selected rows when the pressed row is one
      of them, else the pressed row alone. */
  function RowsToDrag(selected: seq<int>, pressed: int): (r: seq<int>)
    ensures pressed in r
    ensures forall x :: x in r ==> x in selected || x == pressed
    ensures pressed in selected ==> r == selected
    ensures pressed !in selected ==> r == [pressed]
  {
    if selected != [] && pressed in selected then selected else [pressed]
  }

  /** What one row adds to the candidates: its path, unless it has none or
      an empty one. */
  function RowCandidate(table: seq<TableRow>, row: int): seq<string> {
    var p := DragPath(table, row);
    if p.Some? && p.value != "" then [p.value] else []
  }

  /** The paths of the rows in turn, dropping rows without one and empty paths. */
  function Candidates(table: seq<TableRow>, rows: seq<int>): (r: seq<string>)
    ensures forall p :: p in r ==> p != ""
  {
    if rows == [] then []
    else Candidates(table, rows[..|rows| - 1]) + RowCandidate(table, rows[|rows| - 1])
  }

  /** Every candidate comes from some dragged row ... */
  lemma {:induction false} CandidatesSound(table: seq<TableRow>, rows: seq<int>, p: string)
    requires p in Candidates(table, rows)
    ensures exists i :: 0 <= i < |rows| && DragPath(table, rows[i]) == Some(p)
  {
    var init := rows[..|rows| - 1];
    if p in Candidates(table, init) {
      CandidatesSound(table, init, p);
      var i :| 0 <= i < |init| && DragPath(table, init[i]) == Some(p);
      assert rows[i] == init[i];
    } else {
      assert DragPath(table, rows[|rows| - 1]) == Some(p);
    }
  }

  /** ... and every non-empty path of a dragged row is a candidate. */
  lemma {:induction false} CandidatesComplete(table: seq<TableRow>, rows: seq<int>, i: nat)
    requires i < |rows| && DragPath(table, rows[i]).Some? && DragPath(table, rows[i]).value != ""
    ensures DragPath(table, rows[i]).value in Candidates(table, rows)
  {
    var init := rows[..|rows| - 1];
    assert Candidates(table, rows) == Candidates(table, init) + RowCandidate(table, rows[|rows| - 1]);
    if i < |init| {
      assert init[i] == rows[i];
      CandidatesComplete(table, init, i);
    }
  }

  /** Order-preserving de-duplication: each member at its first occurrence. */
  function Dedup(s: seq<string>): seq<string> {
    if s == [] then []
    else
      var d := Dedup(s[..|s| - 1]);
      var last := s[|s| - 1];
      if last in d then d else d + [last]
  }

  /** De-duplication keeps every member, once. */
  lemma {:induction false} DedupMembers(s: seq<string>)
    ensures NoDup(Dedup(s))
    ensures forall x :: x in Dedup(s) <==> x in s
  {
    if s != [] {
      var init := s[..|s| - 1];
      DedupMembers(init);
      assert s == init + [s[|s| - 1]];
    }
  }

  /** The position of the first occurrence of x in s. */
  function FirstIndex(s: seq<string>, x: string): (r: nat)
    requires x in s
    ensures r < |s| && s[r] == x && x !in s[..r]
  {
    if s[0] == x then 0
    else
      assert s == [s[0]] + s[1..];
      1 + FirstIndex(s[1..], x)
  }

  lemma FirstIndexPrefix(s: seq<string>, n: nat, x: string)
    requires n <= |s| && x in s[..n]
    ensures FirstIndex(s, x) == FirstIndex(s[..n], x)
  {
    var j := FirstIndex(s[..n], x);
    assert s[..n][..j] == s[..j];
  }

  /** The kept members come in the order of their first occurrences. */
  lemma {:induction false} DedupOrder(s: seq<string>)
    ensures forall i, j :: 0 <= i < j < |Dedup(s)| ==>
              Dedup(s)[i] in s && Dedup(s)[j] in s &&
              FirstIndex(s, Dedup(s)[i]) < FirstIndex(s, Dedup(s)[j])
  {
    if s != [] {
      var init := s[..|s| - 1];
      var last := s[|s| - 1];
      assert s == init + [last];
      var d := Dedup(init);
      DedupOrder(init);
      DedupMembers(init);
      var r := Dedup(s);
      forall i, j | 0 <= i < j < |r|
        ensures r[i] in s && r[j] in s && FirstIndex(s, r[i]) < FirstIndex(s, r[j])
      {
        assert r[i] == d[i] && r[i] in init;
        FirstIndexPrefix(s, |s| - 1, r[i]);
        if j < |d| {
          assert r[j] == d[j] && r[j] in init;
          FirstIndexPrefix(s, |s| - 1, r[j]);
        } else {
          assert r[j] == last && last !in init;
          LastFirstIndex(init, last);
        }
      }
      assert forall i, j :: 0 <= i < j < |r| ==> r[i] in s && r[j] in s && FirstIndex(s, r[i]) < FirstIndex(s, r[j]);
    } else {
      assert Dedup(s) == [];
    }
  }

  lemma LastFirstIndex(init: seq<string>, last: string)
    requires last !in init
    ensures FirstIndex(init + [last], last) == |init|
  {
  }

  /** One turn of the collecting loop: the row's path is appended when it
      is a new candidate. */
  lemma CollectStep(table: seq<TableRow>, rows: seq<int>, i: nat)
    requires i < |rows|
    ensures Dedup(Candidates(table, rows[..i + 1])) ==
            var d := Dedup(Candidates(table, rows[..i]));
            var p := DragPath(table, rows[i]);
            if p.Some? && p.value != "" && p.value !in d then d + [p.value] else d
  {
    var c := Candidates(table, rows[..i]);
    assert rows[..i + 1][..i] == rows[..i];
    var p := DragPath(table, rows[i]);
    if p.Some? && p.value != "" {
      assert Candidates(table, rows[..i + 1]) == c + [p.value];
      assert (c + [p.value])[..|c|] == c;
    } else {
      assert Candidates(table, rows[..i + 1]) == c;
    }
  }

  /** The collecting loop of the drag: each candidate path is kept when it
      has not been seen yet. */
  method CollectPaths(table: seq<TableRow>, rows: seq<int>) returns (paths: seq<string>)
    ensures paths == Dedup(Candidates(table, rows))
  {
    paths := [];
    var seen: set<string> := {};
    for i := 0 to |rows|
      invariant paths == Dedup(Candidates(table, rows[..i]))
      invariant forall x :: x in seen <==> x in paths
    {
      var p := DragPath(table, rows[i]);
      CollectStep(table, rows, i);
      if p.Some? && p.value != "" && p.value !in seen {
        seen := seen + {p.value};
        paths := paths + [p.value];
      }
    }
    assert rows[..|rows|] == rows;
  }

  /** What a drag from a pressed row carries: the de-duplicated paths of the
      dragged rows; the drag starts only when there is one. */
  method DragPaths(table: seq<TableRow>, selected: seq<int>, pressed: int) returns (paths: seq<string>)
    ensures paths == Dedup(Candidates(table, RowsToDrag(selected, pressed)))
    ensures NoDup(paths)
    ensures forall p :: p in paths <==>
              p != "" && exists i :: 0 <= i < |RowsToDrag(selected, pressed)| &&
                                    DragPath(table, RowsToDrag(selected, pressed)[i]) == Some(p)
  {
    var rows := RowsToDrag(selected, pressed);
    paths := CollectPaths(table, rows);
    DedupMembers(Candidates(table, rows));
    forall p ensures p in paths <==> p != "" && exists i :: 0 <= i < |rows| && DragPath(table, rows[i]) == Some(p) {
      if p in paths {
        CandidatesSound(table, rows, p);
      }
      if p != "" && exists i :: 0 <= i < |rows| && DragPath(table, rows[i]) == Some(p) {
        var i :| 0 <= i < |rows| && DragPath(table, rows[i]) == Some(p);
        CandidatesComplete(table, rows, i);
      }
    }
  }

  // ---------------------------------------------------------------------------
  // The widget queue of the grid view
  // ---------------------------------------------------------------------------

  /** How many widgets one call of _process_widget_queue creates. */
  const BatchSize := 20

  /** The number of queued items a batch of the given size pops. */
  function Popped(queued: nat, batchSize: int): (r: nat)
    ensures r <= queued
    ensures batchSize >= 0 && r < queued ==> r == batchSize
    ensures batchSize <= 0 ==> r == 0
    ensures batchSize >= 1 && queued >= 1 ==> r >= 1
  {
    if batchSize <= 0 then 0 else if queued < batchSize then queued else batchSize
  }

  /** The queue of (file, thumbnail) pairs waiting for a grid widget, the
      widgets created so far, and the flag that says a batch is scheduled. */
  class WidgetQueue<W> {
    var queue: seq<W>
    var processing: bool
    var shown: seq<W>

    /** A non-empty queue always has a batch on the way. */
    predicate Valid()
      reads this
    {
      processing <==> queue != []
    }

    constructor()
      ensures Valid() && queue == [] && shown == []
    {
      queue := [];
      processing := false;
      shown := [];
    }

    /** _process_widget_queue: pops up to batchSize items from the front,
        creating their widgets in order; the flag is cleared only when the
        queue has run empty, otherwise the next batch is scheduled. */
    method ProcessBatch(batchSize: int)
      modifies this
      ensures var n := Popped(|old(queue)|, batchSize);
              shown == old(shown) + old(queue)[..n] && queue == old(queue)[n..]
      ensures Valid()
    {
      processing := true;
      var count := 0;
      while queue != [] && count < batchSize
        invariant processing
        invariant 0 <= count <= |old(queue)|
        invariant count <= batchSize || count == 0
        invariant shown == old(shown) + old(queue)[..count] && queue == old(queue)[count..]
        decreases |queue|
      {
        var item := queue[0];
        queue := queue[1..];
        shown := shown + [item];
        count := count + 1;
        assert old(queue)[..count] == old(queue)[..count - 1] + [item];
      }
      if queue == [] {
        processing := false;
      }
    }

    /** add_widget's enqueue: the pair joins the back of the queue, and a batch
        runs at once unless one is already scheduled. */
    method Enqueue(item: W)
      requires Valid()
      modifies this
      ensures Valid()
      ensures shown + queue == old(shown) + old(queue) + [item]
      ensures old(processing) ==> shown == old(shown)
      ensures !old(processing) ==> shown == old(shown) + [item] && queue == []
    {
      queue := queue + [item];
      if !processing {
        ProcessBatch(BatchSize);
      }
    }

    /** The scheduled batches, one after another until the queue is empty:
        every queued item gets its widget, first in, first out. */
    method Drain(batchSize: int)
      requires batchSize >= 1
      modifies this
      ensures shown == old(shown) + old(queue) && queue == [] && !processing
    {
      ProcessBatch(batchSize);
      while processing
        invariant Valid()
        invariant shown + queue == old(shown) + old(queue)
        decreases |queue|
      {
        ghost var before := queue;
        ProcessBatch(batchSize);
        assert before == before[..Popped(|before|, batchSize)] + before[Popped(|before|, batchSize)..];
      }
    }
  }

  // ---------------------------------------------------------------------------
  // Row heights
  // ---------------------------------------------------------------------------

  /** set_table_row_height: the height is clamped to at least one pixel. */
  function RowHeight(height: int): (h: int)
    ensures h >= 1
    ensures height >= 1 ==> h == height
    ensures height < 1 ==> h == 1
  {
    if height < 1 then 1 else height
  }

  /** The thumbnail height the delegate gets: ten pixels less than the row,
      but never below 16. */
  function ThumbnailHeight(rowHeight: int): (t: int)
    ensures t >= 16 && t >= rowHeight - 10
    ensures rowHeight >= 26 ==> t == rowHeight - 10
  {
    if rowHeight - 10 < 16 then 16 else rowHeight - 10
  }

  /** auto_adjust_table_row_heights: the taller of the info widget and the
      thumbnail, clamped to [minHeight, maxHeight]; the minimum wins when
      the bounds cross. */
  function RequiredHeight(minHeight: int, maxHeight: int, infoHeight: int, thumbHeight: int): (h: int)
    ensures h >= minHeight
    ensures minHeight <= maxHeight ==> h <= maxHeight
    ensures var c := if infoHeight < thumbHeight then thumbHeight else infoHeight;
            (minHeight <= c <= maxHeight ==> h == c) &&
            (c < minHeight ==> h == minHeight) &&
            (c > maxHeight ==> h == if minHeight < maxHeight then maxHeight else minHeight)
  {
    var content := if infoHeight < thumbHeight then thumbHeight else infoHeight;
    var capped := if maxHeight < content then maxHeight else content;
    if minHeight < capped then capped else minHeight
  }

  /** The size settings of the table's thumbnail delegate. */
  datatype Delegate = Delegate(rowHeight: int, thumbnailHeight: int)

  /** set_table_row_height: the vertical header's default section size and
      every existing row get the clamped height; a delegate, when the window
      has one, takes that height as its row height and the thumbnail height
      derived from it, and without a delegate nothing else changes. */
  method SetTableRowHeight(rowHeights: array<int>, height: int, delegate: Option<Delegate>)
    returns (defaultSize: int, delegate': Option<Delegate>)
    modifies rowHeights
    ensures defaultSize == RowHeight(height)
    ensures forall r :: 0 <= r < rowHeights.Length ==> rowHeights[r] == RowHeight(height)
    ensures delegate.None? ==> delegate' == None
    ensures delegate.Some? ==> delegate' == Some(Delegate(RowHeight(height), ThumbnailHeight(RowHeight(height))))
  {
    var h := RowHeight(height);
    defaultSize := h;
    delegate' := delegate;
    if delegate.Some? {
      delegate' := Some(Delegate(h, ThumbnailHeight(h)));
    }
    for r := 0 to rowHeights.Length
      invariant forall i :: 0 <= i < r ==> rowHeights[i] == h
    {
      rowHeights[r] := h;
    }
  }

  /** auto_adjust_table_row_heights: each row fits its info widget (height 0
      when the row has none) or the thumbnail, within the bounds. */
  method AutoAdjustRowHeights(rowHeights: array<int>, infoHeights: seq<Option<int>>, thumbHeight: int,
                              minHeight: int, maxHeight: int)
    requires |infoHeights| == rowHeights.Length
    modifies rowHeights
    ensures forall r :: 0 <= r < rowHeights.Length ==>
              rowHeights[r] == RequiredHeight(minHeight, maxHeight,
                                               match infoHeights[r] case None => 0 case Some(h) => h,
                                               thumbHeight)
  {
    for r := 0 to rowHeights.Length
      invariant forall i :: 0 <= i < r ==>
                  rowHeights[i] == RequiredHeight(minHeight, maxHeight,
                                                   match infoHeights[i] case None => 0 case Some(h) => h,
                                                   thumbHeight)
    {
      var infoHeight := match infoHeights[r] case None => 0 case Some(h) => h;
      rowHeights[r] := RequiredHeight(minHeight, maxHeight, infoHeight, thumbHeight);
    }
  }
}
