/** Thumbnail generation (support_files/ffmpeg_worker.py): which file a
    thumbnail goes to and which tool makes it (FFMPEGWorker), what each job
    converts (BackGroundWorker._convert_one), how many workers the pool gets,
    and how the finished jobs are written back into the file list
    (BackGroundWorker.run). The filesystem test os.path.exists, the SHA-1
    hex digest and the CPU count are inputs; the tools themselves and the
    thread pool are not modelled, and the jobs complete in an arbitrary
    order. */
module Thumbnails {
  import opened Common
  import opened Dict
  import opened Json

  // ---------------------------------------------------------------------------
  // FFMPEGWorker.convert_tumbnail
  // ---------------------------------------------------------------------------

  datatype Tool = Oiiotool | Ffmpeg

  /** What one conversion does: the path it returns and the tool it runs,
      None when the thumbnail already exists. */
  datatype Conversion = Conversion(target: string, tool: Option<Tool>)

  /** The thumbnail of a source file: the SHA-1 hex digest of its path plus
      ".jpeg", inside the thumbnail directory. */
  function TargetPath(root: string, path: string, sha1: string -> string): string {
    Join(root, sha1(path) + ".jpeg")
  }

  function Convert(root: string, path: string, sha1: string -> string, onDisk: string -> bool): Conversion {
    var target := TargetPath(root, path, sha1);
    if onDisk(target) then Conversion(target, None)
    else if EndsWith(Lower(path), ".exr") then Conversion(target, Some(Oiiotool))
    else Conversion(target, Some(Ffmpeg))
  }

  /** The decision: the target is always returned; no tool runs when it
      exists; otherwise oiiotool runs exactly for names ending in ".exr" in
      any case, and ffmpeg for every other file. */
  lemma ConvertSpec(root: string, path: string, sha1: string -> string, onDisk: string -> bool)
    ensures var c := Convert(root, path, sha1, onDisk);
            && c.target == TargetPath(root, path, sha1)
            && (c.tool.None? <==> onDisk(c.target))
            && (c.tool == Some(Oiiotool) <==> !onDisk(c.target) && EndsWith(Lower(path), ".exr"))
            && (c.tool == Some(Ffmpeg) <==> !onDisk(c.target) && !EndsWith(Lower(path), ".exr"))
  {
  }

  /** Different digests give different thumbnail files in the same
      directory, and the thumbnail lies directly in that directory (less a
      trailing '/') when the digest has no '/' (a hex digest never has one). */
  lemma TargetPathSpec(root: string, a: string, b: string, sha1: string -> string)
    requires '/' !in sha1(a)
    ensures sha1(a) != sha1(b) ==> TargetPath(root, a, sha1) != TargetPath(root, b, sha1)
    ensures ParentOf(TargetPath(root, a, sha1)) == if root == [] then None else Some(Folder(root))
  {
    if TargetPath(root, a, sha1) == TargetPath(root, b, sha1) {
      JoinSameDir(root, sha1(a) + ".jpeg", sha1(b) + ".jpeg");
      assert sha1(a) == (sha1(a) + ".jpeg")[..|sha1(a) + ".jpeg"| - 5];
    }
    ParentOfJoin(root, sha1(a) + ".jpeg");
  }

  // ---------------------------------------------------------------------------
  // BackGroundWorker._convert_one
  // ---------------------------------------------------------------------------

  /** The source path of a job: the record's "path" when the record is a
      dict, the value itself otherwise. None when that is not a string, in
      which case the job raises before converting. */
  function JobInput(file: Value): (r: Option<string>)
    ensures file.Str? ==> r == Some(file.s)
    ensures file.Obj? && r.Some? ==> Get(file.fields, "path") == Some(Str(r.value))
    ensures file.Obj? && r.None? ==> !(Get(file.fields, "path").Some? && Get(file.fields, "path").value.Str?)
  {
    match file
    case Str(p) => Some(p)
    case Num(_) => None
    case Obj(fs) =>
      match Get(fs, "path")
      case Some(v) => if v.Str? then Some(v.s) else None
      case None => None
  }

  /** The result of a job whose tool returns: its thumbnail path, or None
      when the job raises. */
  function Job(root: string, file: Value, sha1: string -> string, onDisk: string -> bool): Option<string> {
    match JobInput(file)
    case None => None
    case Some(p) => Some(Convert(root, p, sha1, onDisk).target)
  }

  /** A job that does not raise returns the non-empty thumbnail path of its
      source, so its record gets a thumbnail. */
  lemma JobResult(root: string, file: Value, sha1: string -> string, onDisk: string -> bool)
    ensures Job(root, file, sha1, onDisk).Some? <==> JobInput(file).Some?
    ensures JobInput(file).Some? ==>
              Job(root, file, sha1, onDisk) == Some(TargetPath(root, JobInput(file).value, sha1))
              && Produced(Job(root, file, sha1, onDisk))
  {
  }

  // ---------------------------------------------------------------------------
  // BackGroundWorker.run
  // ---------------------------------------------------------------------------

  /** The number of pool workers. `cpus` is what cpu_count() returns, None
      when it raises; 0 counts as 1. */
  function PoolSize(cpus: Option<nat>, totalFiles: nat): (r: nat)
    ensures r >= 1
    ensures totalFiles > 0 ==> r <= totalFiles
    ensures cpus.Some? && cpus.value > 0 ==> r <= cpus.value
    ensures totalFiles == 0 || cpus.None? || cpus.value <= 1 ==> r == 1
    ensures totalFiles > 0 && cpus.Some? && cpus.value > 0 ==>
              (r == cpus.value || r == totalFiles)
  {
    var maxWorkers := if cpus.None? || cpus.value == 0 then 1 else cpus.value;
    if totalFiles > 0 then (if maxWorkers <= totalFiles then maxWorkers else totalFiles) else 1
  }

  /** The status messages and signals of run(), in order. The percentages
      are not modelled; Done carries the 1-based position they come from. */
  datatype Event =
    | Generating
    | JobFailed(key: string)
    | ThumbnailSet(key: string, path: string)
    | Done(name: Value, completed: nat, total: nat, index: nat)
    | AllGenerated
    | Finished

  /** A job result that run() writes back: a non-empty path. */
  predicate Produced(r: Option<string>) {
    r.Some? && r.value != ""
  }

  /** The record after its job: "thumbnail" set when the job produced a path. */
  function Attach(file: Value, r: Option<string>): Value {
    if Produced(r) && file.Obj? then Obj(Put(file.fields, "thumbnail", Str(r.value))) else file
  }

  /** Writing "thumbnail" into a record that is not a dict raises TypeError;
      the completion loop is modelled for file lists where that does not
      happen. */
  ghost predicate Writable(fileList: seq<(string, Value)>, outcome: string -> Option<string>) {
    forall j :: 0 <= j < |fileList| && Produced(outcome(fileList[j].0)) ==> fileList[j].1.Obj?
  }

  /** The file list once the jobs of the entries at the positions in `done`
      are written back. */
  function AttachedFor(fileList: seq<(string, Value)>, outcome: string -> Option<string>, done: seq<nat>): (r: seq<(string, Value)>)
    ensures Keys(r) == Keys(fileList)
  {
    seq(|fileList|, j requires 0 <= j < |fileList| =>
      if j in done then (fileList[j].0, Attach(fileList[j].1, outcome(fileList[j].0)))
      else fileList[j])
  }

  /** The file list once every job is written back. */
  function AttachedAll(fileList: seq<(string, Value)>, outcome: string -> Option<string>): (r: seq<(string, Value)>)
    ensures Keys(r) == Keys(fileList)
  {
    seq(|fileList|, j requires 0 <= j < |fileList| => (fileList[j].0, Attach(fileList[j].1, outcome(fileList[j].0))))
  }

  /** After all completions a record has a thumbnail exactly when its job
      produced a non-empty path, and then it is that path; a failed job
      leaves the record as it was, and no other field changes. */
  lemma AttachedAllSpec(fileList: seq<(string, Value)>, outcome: string -> Option<string>, j: nat, k: string)
    requires j < |fileList| && fileList[j].1.Obj?
    ensures var r := AttachedAll(fileList, outcome)[j].1;
            var fs := fileList[j].1.fields;
            && r.Obj?
            && (Produced(outcome(fileList[j].0)) ==> Get(r.fields, "thumbnail") == Some(Str(outcome(fileList[j].0).value)))
            && (!Produced(outcome(fileList[j].0)) ==> r == fileList[j].1)
            && (k != "thumbnail" ==> Get(r.fields, k) == Get(fs, k))
  {
    var fs := fileList[j].1.fields;
    if Produced(outcome(fileList[j].0)) {
      PutSpec(fs, "thumbnail", Str(outcome(fileList[j].0).value), k);
      PutSpec(fs, "thumbnail", Str(outcome(fileList[j].0).value), "thumbnail");
    }
  }

  /** The name in a Done message: the record's "name" if it is a dict that
      has one, the key otherwise. */
  function DisplayName(file: Value, key: string): Value {
    if file.Obj? && HasKey(file.fields, "name") then Get(file.fields, "name").value else Str(key)
  }

  /** The messages before the Done message of a completion: a failed job is
      reported, a produced path is signalled. */
  function Notes(key: string, r: Option<string>): seq<Event> {
    (if r.None? then [JobFailed(key)] else [])
    + (if Produced(r) then [ThumbnailSet(key, r.value)] else [])
  }

  /** The Done message when the job of entry j is the completed-th to finish:
      the name of its record, the count so far, the size of the file list
      and the 1-based position of the entry. */
  function DoneOf(fileList: seq<(string, Value)>, j: nat, completed: nat): Event
    requires j < |fileList|
  {
    Done(DisplayName(fileList[j].1, fileList[j].0), completed, |fileList|, j + 1)
  }

  /** The messages of that completion. */
  function StepEvents(fileList: seq<(string, Value)>, outcome: string -> Option<string>, j: nat, completed: nat): seq<Event>
    requires j < |fileList|
  {
    Notes(fileList[j].0, outcome(fileList[j].0)) + [DoneOf(fileList, j, completed)]
  }

  /** as_completed: the i-th job to finish is the one of entry perm[i], and
      every entry's job finishes exactly once. */
  ghost predicate Completions(fileList: seq<(string, Value)>, perm: seq<nat>) {
    && (forall a, b :: 0 <= a < b < |perm| ==> perm[a] != perm[b])
    && (forall i :: 0 <= i < |perm| ==> perm[i] < |fileList|)
    && (forall j :: 0 <= j < |fileList| ==> j in perm)
  }

  /** The messages of the first n completions. */
  function Log(fileList: seq<(string, Value)>, outcome: string -> Option<string>, perm: seq<nat>, n: nat): seq<Event>
    requires n <= |perm| && forall i :: 0 <= i < |perm| ==> perm[i] < |fileList|
  {
    if n == 0 then [] else Log(fileList, outcome, perm, n - 1) + StepEvents(fileList, outcome, perm[n - 1], n)
  }

  /** Writing back the job of one more entry. */
  lemma AttachStep(fileList: seq<(string, Value)>, outcome: string -> Option<string>, perm: seq<nat>, i: nat)
    requires i < |perm| && perm[i] < |fileList|
    requires forall a, b :: 0 <= a < b < |perm| ==> perm[a] != perm[b]
    ensures AttachedFor(fileList, outcome, perm[..i])[perm[i]] == fileList[perm[i]]
    ensures AttachedFor(fileList, outcome, perm[..i])[perm[i] := (fileList[perm[i]].0, Attach(fileList[perm[i]].1, outcome(fileList[perm[i]].0)))]
            == AttachedFor(fileList, outcome, perm[..i + 1])
  {
    assert perm[..i + 1] == perm[..i] + [perm[i]];
    assert perm[i] !in perm[..i];
  }

  /** Before any completion the file list is as given... */
  lemma AttachedFrom(fileList: seq<(string, Value)>, outcome: string -> Option<string>, perm: seq<nat>)
    ensures AttachedFor(fileList, outcome, perm[..0]) == fileList
  {
    assert perm[..0] == [];
  }

  /** ... and once every entry has completed, every job is written back. */
  lemma AttachedTo(fileList: seq<(string, Value)>, outcome: string -> Option<string>, perm: seq<nat>)
    requires forall j :: 0 <= j < |fileList| ==> j in perm
    ensures AttachedFor(fileList, outcome, perm[..|perm|]) == AttachedAll(fileList, outcome)
  {
    assert perm[..|perm|] == perm;
  }

  /** One pass of the completion loop: the job of entry perm[i] has
      completed. The key and the record are looked up by key, as run() does;
      in a dict that finds entry perm[i]. */
  method CompleteStep(fileList: seq<(string, Value)>, perm: seq<nat>, outcome: string -> Option<string>,
                      i: nat, completed: nat, files: seq<(string, Value)>)
    returns (files': seq<(string, Value)>, events: seq<Event>)
    requires DistinctKeys(fileList) && Completions(fileList, perm) && Writable(fileList, outcome)
    requires i < |perm| && completed == i
    requires files == AttachedFor(fileList, outcome, perm[..i])
    ensures files' == AttachedFor(fileList, outcome, perm[..i + 1])
    ensures events == StepEvents(fileList, outcome, perm[i], completed + 1)
  {
    var key := fileList[perm[i]].0;
    GetAt(fileList, perm[i]);
    FindSameKeys(files, fileList, key);
    AttachStep(fileList, outcome, perm, i);
    var j := Find(files, key).value;
    assert j == perm[i];
    var file := Get(files, key);
    var thumbnailPath := outcome(key);
    events := [];
    files' := files;
    if thumbnailPath.None? {
      events := events + [JobFailed(key)];
    }
    if file.Some? && thumbnailPath.Some? && thumbnailPath.value != "" {
      events := events + [ThumbnailSet(key, thumbnailPath.value)];
      files' := files'[j := (key, Obj(Put(file.value.fields, "thumbnail", Str(thumbnailPath.value))))];
    } else {
      assert files[j := (key, Attach(fileList[j].1, outcome(key)))] == files;
    }
    var index := Find(fileList, key).value + 1;
    events := events + [Done(DisplayName(file.value, key), completed + 1, |fileList|, index)];
  }

  method CompleteNext(fileList: seq<(string, Value)>, perm: seq<nat>, outcome: string -> Option<string>,
                      i: nat, completed: nat, files: seq<(string, Value)>, log: seq<Event>)
    returns (files': seq<(string, Value)>, log': seq<Event>)
    requires DistinctKeys(fileList) && Completions(fileList, perm) && Writable(fileList, outcome)
    requires i < |perm| && completed == i
    requires files == AttachedFor(fileList, outcome, perm[..i])
    requires log == [Generating] + Log(fileList, outcome, perm, i)
    ensures files' == AttachedFor(fileList, outcome, perm[..i + 1])
    ensures log' == [Generating] + Log(fileList, outcome, perm, i + 1)
  {
    var events;
    files', events := CompleteStep(fileList, perm, outcome, i, completed, files);
    log' := log + events;
    LogStep(fileList, outcome, perm, i, events);
  }

  /** The log of one more completion extends the log before it. */
  lemma LogStep(fileList: seq<(string, Value)>, outcome: string -> Option<string>, perm: seq<nat>, i: nat,
                events: seq<Event>)
    requires i < |perm| && forall k :: 0 <= k < |perm| ==> perm[k] < |fileList|
    requires events == StepEvents(fileList, outcome, perm[i], i + 1)
    ensures [Generating] + Log(fileList, outcome, perm, i) + events == [Generating] + Log(fileList, outcome, perm, i + 1)
  {
    assert Log(fileList, outcome, perm, i + 1) == Log(fileList, outcome, perm, i) + events;
  }

  /** The completion loop of run(). The jobs finish in the order `perm`;
      `outcome(key)` is what future.result() gives for the job of `key`,
      None when it raised. The resulting file list does not depend on the
      order. */
  method Complete(fileList: seq<(string, Value)>, perm: seq<nat>, outcome: string -> Option<string>)
    returns (files: seq<(string, Value)>, events: seq<Event>)
    requires DistinctKeys(fileList) && Completions(fileList, perm) && Writable(fileList, outcome)
    ensures files == AttachedAll(fileList, outcome)
    ensures events == [Generating] + Log(fileList, outcome, perm, |perm|) + [AllGenerated, Finished]
  {
    events := [Generating];
    files := fileList;
    AttachedFrom(fileList, outcome, perm);
    var completed := 0;
    var i := 0;
    while i < |perm|
      invariant i <= |perm| && completed == i
      invariant files == AttachedFor(fileList, outcome, perm[..i])
      invariant events == [Generating] + Log(fileList, outcome, perm, i)
    {
      files, events := CompleteNext(fileList, perm, outcome, i, completed, files, events);
      completed := completed + 1;
      i := i + 1;
    }
    AttachedTo(fileList, outcome, perm);
    events := events + [AllGenerated, Finished];
  }

  /** The Done messages of a log. */
  function Dones(events: seq<Event>): seq<Event> {
    if events == [] then []
    else
      var init := events[..|events| - 1];
      var last := events[|events| - 1];
      Dones(init) + (if last.Done? then [last] else [])
  }

  lemma {:induction false} DonesConcat(a: seq<Event>, b: seq<Event>)
    ensures Dones(a + b) == Dones(a) + Dones(b)
  {
    if b != [] {
      var bi := b[..|b| - 1];
      var last := b[|b| - 1];
      var tail := if last.Done? then [last] else [];
      assert a + b == (a + bi) + [last];
      assert (a + b)[..|a + b| - 1] == a + bi;
      assert Dones(a + b) == Dones(a + bi) + tail;
      assert Dones(b) == Dones(bi) + tail;
      DonesConcat(a, bi);
    } else {
      assert a + b == a;
    }
  }

  lemma NotesNoDone(key: string, r: Option<string>)
    ensures Dones(Notes(key, r)) == []
  {
    var a := Notes(key, r);
    if a != [] {
      assert a == [a[0]] && !a[0].Done?;
      assert a[..0] == [];
    }
  }

  /** One Done message per completion, in completion order: the n-th counts
      n processed jobs out of the file list's size and carries the 1-based
      position in the file list of the entry whose job it was, not the
      count. */
  lemma {:induction false} LogDones(fileList: seq<(string, Value)>, outcome: string -> Option<string>, perm: seq<nat>, n: nat)
    requires n <= |perm| && forall i :: 0 <= i < |perm| ==> perm[i] < |fileList|
    ensures |Dones(Log(fileList, outcome, perm, n))| == n
    ensures forall i :: 0 <= i < n ==>
              Dones(Log(fileList, outcome, perm, n))[i]
              == Done(DisplayName(fileList[perm[i]].1, fileList[perm[i]].0), i + 1, |fileList|, perm[i] + 1)
  {
    if n > 0 {
      LogDones(fileList, outcome, perm, n - 1);
      DonesStep(fileList, outcome, perm, n);
      var prev := Dones(Log(fileList, outcome, perm, n - 1));
      var cur := Dones(Log(fileList, outcome, perm, n));
      forall i | 0 <= i < n
        ensures cur[i] == Done(DisplayName(fileList[perm[i]].1, fileList[perm[i]].0), i + 1, |fileList|, perm[i] + 1)
      {
        if i < n - 1 {
          assert cur[i] == prev[i];
        }
      }
    }
  }

  /** The Done messages grow by one per completion. */
  lemma DonesStep(fileList: seq<(string, Value)>, outcome: string -> Option<string>, perm: seq<nat>, n: nat)
    requires 1 <= n <= |perm| && forall i :: 0 <= i < |perm| ==> perm[i] < |fileList|
    ensures Dones(Log(fileList, outcome, perm, n))
            == Dones(Log(fileList, outcome, perm, n - 1)) + [DoneOf(fileList, perm[n - 1], n)]
  {
    var j := perm[n - 1];
    var d := DoneOf(fileList, j, n);
    var notes := Notes(fileList[j].0, outcome(fileList[j].0));
    var prev := Log(fileList, outcome, perm, n - 1);
    assert Log(fileList, outcome, perm, n) == prev + (notes + [d]);
    DonesConcat(prev, notes + [d]);
    DonesConcat(notes, [d]);
    NotesNoDone(fileList[j].0, outcome(fileList[j].0));
    assert [d][..0] == [];
    assert Dones([d]) == [d];
  }
}
