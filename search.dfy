/** The directory scan of support_files/search.py (SearchWorker): every
    directory listing is classified into video, image and image-sequence
    records, which are stored in a dict keyed by a hash of their path and
    finally sorted by ctime, newest first. The filesystem is an input: the
    directories in walk order with their listings, a ctime function and a
    hash function stand for os.walk, os.listdir, os.path.getctime and
    hashlib.sha1(...).hexdigest(). */
module Search {
  import opened Common
  import opened Dict
  import opened Classify
  import opened Frames
  import opened Assets
  import opened CtimeSort

  /** What os.listdir returns for a directory, or the PermissionError it raises. */
  datatype Listing = PermissionDenied | Names(names: seq<string>)

  datatype Dir = Dir(path: string, listing: Listing)

  /** What os.walk and os.listdir guarantee: every directory path is
      non-empty and is visited once, also when a trailing '/' is ignored,
      and a listed name never contains the separator. */
  predicate WalkOrder(dirs: seq<Dir>) {
    && (forall i :: 0 <= i < |dirs| ==> dirs[i].path != [])
    && (forall i, j :: 0 <= i < j < |dirs| ==> Folder(dirs[i].path) != Folder(dirs[j].path))
    && (forall i :: 0 <= i < |dirs| && dirs[i].listing.Names? ==> NoSeparator(dirs[i].listing.names))
  }

  predicate NoSeparator(names: seq<string>) {
    forall n :: n in names ==> '/' !in n
  }

  /** A directory whose path has a ".db" segment is not scanned. */
  predicate Skipped(d: Dir) {
    HasSegment(d.path, ".db")
  }

  /** Every directory below a skipped directory is skipped too. */
  lemma SkipInherited(d: Dir, name: string, listing: Listing)
    requires Skipped(d)
    ensures Skipped(Dir(Join(d.path, name), listing))
  {
    SegmentInherited(d.path, name, ".db");
  }

  // ---------------------------------------------------------------------------
  // What one directory contributes
  // ---------------------------------------------------------------------------

  /** video_files: the video names of a listing, in listing order. */
  function VideoFiles(names: seq<string>): (r: seq<string>)
    ensures forall x :: x in r <==> x in names && IsVideo(x)
  {
    if names == [] then []
    else
      var init := names[..|names| - 1];
      var last := names[|names| - 1];
      assert names == init + [last];
      VideoFiles(init) + (if IsVideo(last) then [last] else [])
  }

  /** image_files: the image names of a listing, in listing order. */
  function ImageFiles(names: seq<string>): (r: seq<string>)
    ensures forall x :: x in r <==> x in names && IsImage(x)
  {
    if names == [] then []
    else
      var init := names[..|names| - 1];
      var last := names[|names| - 1];
      assert names == init + [last];
      ImageFiles(init) + (if IsImage(last) then [last] else [])
  }

  /** The name is a frame file of the sequence with the base and extension of key. */
  predicate InGroup(name: string, key: FrameName) {
    ParseFrame(name).Some? && SameSequence(ParseFrame(name).value, key)
  }

  /** The frame-list tuple of a frame file. */
  function FrameOf(dir: string, name: string): Frame
    requires ParseFrame(name).Some?
  {
    Frame(FrameNumber(ParseFrame(name).value), name, Join(dir, name))
  }

  /** frame_list: the tuples of the images in the sequence of key, in listing order. */
  function Group(dir: string, images: seq<string>, key: FrameName): seq<Frame> {
    if images == [] then []
    else
      var last := images[|images| - 1];
      Group(dir, images[..|images| - 1], key) + (if InGroup(last, key) then [FrameOf(dir, last)] else [])
  }

  /** Every frame file of the sequence has its tuple in frame_list ... */
  lemma {:induction false} GroupHas(dir: string, images: seq<string>, key: FrameName, s: nat)
    requires s < |images| && InGroup(images[s], key)
    ensures FrameOf(dir, images[s]) in Group(dir, images, key)
  {
    var init := images[..|images| - 1];
    if s < |init| {
      assert images[s] == init[s];
      GroupHas(dir, init, key, s);
    }
  }

  /** ... and frame_list holds nothing else. */
  lemma {:induction false} GroupOnly(dir: string, images: seq<string>, key: FrameName, x: Frame)
    requires x in Group(dir, images, key)
    ensures exists s :: 0 <= s < |images| && InGroup(images[s], key) && x == FrameOf(dir, images[s])
  {
    var init := images[..|images| - 1];
    if x in Group(dir, init, key) {
      GroupOnly(dir, init, key, x);
      var s :| 0 <= s < |init| && InGroup(init[s], key) && x == FrameOf(dir, init[s]);
      assert images[s] == init[s];
    } else {
      assert x == FrameOf(dir, images[|images| - 1]);
    }
  }

  /** A frame file is in its own sequence, so a sequence is never empty. */
  lemma OwnGroup(dir: string, images: seq<string>, t: nat)
    requires t < |images| && ParseFrame(images[t]).Some?
    ensures FrameOf(dir, images[t]) in Group(dir, images, ParseFrame(images[t]).value)
  {
    GroupHas(dir, images, ParseFrame(images[t]).value, t);
  }

  /** images[s] is a frame file and one of the first j images is in its sequence. */
  predicate GroupedBefore(images: seq<string>, j: nat, s: nat)
    requires j <= |images| && s < |images|
  {
    ParseFrame(images[s]).Some?
    && exists t :: 0 <= t < j && InGroup(images[t], ParseFrame(images[s]).value)
  }

  function VideoEntry(dir: string, name: string, ctime: string -> int, hash: string -> string): Entry {
    var path := Join(dir, name);
    (hash(path), Asset(ctime(path), path, name, Video))
  }

  function ImageEntry(dir: string, name: string, ctime: string -> int, hash: string -> string): Entry {
    var path := Join(dir, name);
    (hash(path), Asset(ctime(path), path, name, Image))
  }

  /** The record of the sequence of key: its path is the least tuple's, its
      range runs from that tuple's number to the largest number, and it counts
      every tuple. */
  function SequenceEntry(dir: string, images: seq<string>, key: FrameName,
                         ctime: string -> int, hash: string -> string): Entry
    requires Group(dir, images, key) != []
  {
    var g := Group(dir, images, key);
    var first := MinFrame(g);
    var last := MaxNumber(g);
    (hash(first.path),
     Asset(ctime(first.path), first.path, SequenceName(key.base, first.number, last, key.ext),
           Sequence(|g|, first.number, last)))
  }

  /** What image t of a listing contributes: a standalone record, the record
      of its sequence when it is the sequence's first image, or nothing. */
  function ImageEntryAt(dir: string, images: seq<string>, t: nat,
                        ctime: string -> int, hash: string -> string): seq<Entry>
    requires t < |images|
  {
    match ParseFrame(images[t])
    case None => [ImageEntry(dir, images[t], ctime, hash)]
    case Some(key) =>
      if GroupedBefore(images, t, t) then []
      else
        OwnGroup(dir, images, t);
        [SequenceEntry(dir, images, key, ctime, hash)]
  }

  function ImageEntries(dir: string, images: seq<string>, j: nat,
                        ctime: string -> int, hash: string -> string): seq<Entry>
    requires j <= |images|
  {
    if j == 0 then [] else ImageEntries(dir, images, j - 1, ctime, hash) + ImageEntryAt(dir, images, j - 1, ctime, hash)
  }

  function VideoEntries(dir: string, videos: seq<string>, ctime: string -> int, hash: string -> string): seq<Entry> {
    if videos == [] then []
    else VideoEntries(dir, videos[..|videos| - 1], ctime, hash) + [VideoEntry(dir, videos[|videos| - 1], ctime, hash)]
  }

  /** The records of one directory in the order the scan stores them: its
      videos, then its images and sequences. */
  function DirEntries(d: Dir, ctime: string -> int, hash: string -> string): seq<Entry> {
    if Skipped(d) then []
    else
      match d.listing
      case PermissionDenied => []
      case Names(names) =>
        var images := ImageFiles(names);
        VideoEntries(d.path, VideoFiles(names), ctime, hash)
        + ImageEntries(d.path, images, |images|, ctime, hash)
  }

  function ScanEntries(dirs: seq<Dir>, ctime: string -> int, hash: string -> string): seq<Entry> {
    if dirs == [] then []
    else ScanEntries(dirs[..|dirs| - 1], ctime, hash) + DirEntries(dirs[|dirs| - 1], ctime, hash)
  }

  /** Each record stored under its id, one after another. */
  function PutAll(acc: seq<Entry>, es: seq<Entry>): seq<Entry> {
    if es == [] then acc
    else
      var last := es[|es| - 1];
      Put(PutAll(acc, es[..|es| - 1]), last.0, last.1)
  }

  lemma {:induction false} PutAllConcat(acc: seq<Entry>, a: seq<Entry>, b: seq<Entry>)
    ensures PutAll(acc, a + b) == PutAll(PutAll(acc, a), b)
  {
    if b == [] {
      assert a + b == a;
    } else {
      assert (a + b)[..|a + b| - 1] == a + b[..|b| - 1];
      PutAllConcat(acc, a, b[..|b| - 1]);
    }
  }

  /** The completed scan: all records stored by id, newest first. */
  function Scan(dirs: seq<Dir>, ctime: string -> int, hash: string -> string): seq<Entry> {
    SortByCtimeDesc(PutAll([], ScanEntries(dirs, ctime, hash)))
  }

  // ---------------------------------------------------------------------------
  // collect_version_folders
  // ---------------------------------------------------------------------------

  /** The directories as parents of the paths joined below them. */
  function DirFolders(dirs: seq<Dir>): (r: seq<string>)
    ensures |r| == |dirs| && forall k :: 0 <= k < |dirs| ==> r[k] == Folder(dirs[k].path)
  {
    if dirs == [] then [] else DirFolders(dirs[..|dirs| - 1]) + [Folder(dirs[|dirs| - 1].path)]
  }

  /** The scan as the worker runs it. stopFlags[i] is what the worker reads
      from is_stopped before directory i; a stop yields None. */
  method CollectVersionFolders(dirs: seq<Dir>, stopFlags: seq<bool>,
                               ctime: string -> int, hash: string -> string)
    returns (result: Option<seq<Entry>>)
    requires |stopFlags| == |dirs| && WalkOrder(dirs)
    ensures result.None? <==> StopRequested(stopFlags)
    ensures result.Some? ==> result.value == Scan(dirs, ctime, hash)
  {
    var allFiles: seq<Entry> := [];
    var processed: set<string> := {};
    for i := 0 to |dirs|
      invariant allFiles == PutAll([], ScanEntries(dirs[..i], ctime, hash))
      invariant Owned(processed, DirFolders(dirs[..i]))
      invariant !StopRequested(stopFlags[..i])
    {
      if stopFlags[i] {
        StopSeen(stopFlags, i);
        return None;
      }
      NoStopYet(stopFlags, i);
      allFiles, processed := ScanNext(dirs, i, ctime, hash, allFiles, processed);
    }
    assert dirs[..|dirs|] == dirs;
    assert stopFlags[..|stopFlags|] == stopFlags;
    result := Some(SortByCtimeDesc(allFiles));
  }

  method ScanNext(dirs: seq<Dir>, i: nat, ctime: string -> int, hash: string -> string,
                  allFiles: seq<Entry>, processed: set<string>)
    returns (files: seq<Entry>, done: set<string>)
    requires i < |dirs| && WalkOrder(dirs)
    requires allFiles == PutAll([], ScanEntries(dirs[..i], ctime, hash))
    requires Owned(processed, DirFolders(dirs[..i]))
    ensures files == PutAll([], ScanEntries(dirs[..i + 1], ctime, hash))
    ensures Owned(done, DirFolders(dirs[..i + 1]))
  {
    ScanStep(dirs, i, ctime, hash);
    PutAllConcat([], ScanEntries(dirs[..i], ctime, hash), DirEntries(dirs[i], ctime, hash));
    OwnedElsewhere(processed, DirFolders(dirs[..i]), Folder(dirs[i].path));
    files, done := ScanOne(dirs[i], ctime, hash, allFiles, processed);
    OwnedStep(processed, done, dirs, i);
  }

  /** is_stopped was seen before some directory. */
  predicate StopRequested(stopFlags: seq<bool>) {
    true in stopFlags
  }

  lemma StopSeen(stopFlags: seq<bool>, i: nat)
    requires i < |stopFlags| && stopFlags[i]
    ensures StopRequested(stopFlags)
  {
    assert stopFlags[i] in stopFlags;
  }

  lemma NoStopYet(stopFlags: seq<bool>, i: nat)
    requires i < |stopFlags| && !stopFlags[i] && !StopRequested(stopFlags[..i])
    ensures !StopRequested(stopFlags[..i + 1])
  {
    assert stopFlags[..i + 1] == stopFlags[..i] + [stopFlags[i]];
  }

  /** Every processed frame path lies in one of the given directories. */
  predicate Owned(processed: set<string>, paths: seq<string>) {
    forall p :: p in processed ==> ParentOf(p).Some? && ParentOf(p).value in paths
  }

  lemma OwnedElsewhere(processed: set<string>, paths: seq<string>, dir: string)
    requires Owned(processed, paths) && dir !in paths
    ensures forall p :: p in processed ==> ParentOf(p).Some? && ParentOf(p).value != dir
  {
  }

  lemma OwnedStep(before: set<string>, after: set<string>, dirs: seq<Dir>, i: nat)
    requires i < |dirs| && Owned(before, DirFolders(dirs[..i]))
    requires forall p :: p in after ==> p in before || ParentOf(p) == Some(Folder(dirs[i].path))
    ensures Owned(after, DirFolders(dirs[..i + 1]))
  {
    var paths := DirFolders(dirs[..i]);
    assert dirs[..i + 1][..i] == dirs[..i];
    assert DirFolders(dirs[..i + 1]) == paths + [Folder(dirs[i].path)];
  }

  /** Directory i is not among the earlier ones, and the records of the first
      i + 1 directories extend those of the first i. */
  lemma ScanStep(dirs: seq<Dir>, i: nat, ctime: string -> int, hash: string -> string)
    requires i < |dirs| && WalkOrder(dirs)
    ensures dirs[i].path != [] && Folder(dirs[i].path) !in DirFolders(dirs[..i])
    ensures ScanEntries(dirs[..i + 1], ctime, hash) == ScanEntries(dirs[..i], ctime, hash) + DirEntries(dirs[i], ctime, hash)
    ensures dirs[i].listing.Names? ==> NoSeparator(dirs[i].listing.names)
  {
    assert dirs[..i + 1][..i] == dirs[..i];
    forall k | 0 <= k < i ensures DirFolders(dirs[..i])[k] != Folder(dirs[i].path) {
      assert DirFolders(dirs[..i])[k] == Folder(dirs[k].path);
    }
  }

  /** The body of the directory loop after the stop check: skip a ".db"
      directory and one that cannot be listed, scan any other. */
  method ScanOne(d: Dir, ctime: string -> int, hash: string -> string,
                 allFiles: seq<Entry>, processed: set<string>)
    returns (files: seq<Entry>, done: set<string>)
    requires d.path != [] && (d.listing.Names? ==> NoSeparator(d.listing.names))
    requires forall p :: p in processed ==> ParentOf(p).Some? && ParentOf(p).value != Folder(d.path)
    ensures files == PutAll(allFiles, DirEntries(d, ctime, hash))
    ensures forall p :: p in done ==> p in processed || ParentOf(p) == Some(Folder(d.path))
  {
    files, done := allFiles, processed;
    if Skipped(d) {
      return;
    }
    match d.listing
    case PermissionDenied =>
    case Names(names) =>
      files, done := ScanDirectory(d.path, names, ctime, hash, allFiles, processed);
  }

  /** The body of the directory loop for a listed directory; processed holds
      the frame paths already grouped, none of them in this directory. */
  method ScanDirectory(dir: string, names: seq<string>, ctime: string -> int, hash: string -> string,
                       allFiles: seq<Entry>, processed: set<string>)
    returns (files: seq<Entry>, done: set<string>)
    requires dir != [] && NoSeparator(names)
    requires forall p :: p in processed ==> ParentOf(p).Some? && ParentOf(p).value != Folder(dir)
    ensures files == PutAll(allFiles, VideoEntries(dir, VideoFiles(names), ctime, hash)
                                      + ImageEntries(dir, ImageFiles(names), |ImageFiles(names)|, ctime, hash))
    ensures forall p :: p in done ==> p in processed || ParentOf(p) == Some(Folder(dir))
  {
    var videos := VideoFiles(names);
    var images := ImageFiles(names);
    files := StoreVideos(dir, videos, ctime, hash, allFiles);
    PutAllConcat(allFiles, VideoEntries(dir, videos, ctime, hash), ImageEntries(dir, images, |images|, ctime, hash));
    files, done := StoreImages(dir, images, ctime, hash, files, processed);
  }

  /** The loop over video_files. */
  method StoreVideos(dir: string, videos: seq<string>, ctime: string -> int, hash: string -> string,
                     allFiles: seq<Entry>)
    returns (files: seq<Entry>)
    ensures files == PutAll(allFiles, VideoEntries(dir, videos, ctime, hash))
  {
    files := allFiles;
    for v := 0 to |videos|
      invariant files == PutAll(allFiles, VideoEntries(dir, videos[..v], ctime, hash))
    {
      var filePath := Join(dir, videos[v]);
      var id := hash(filePath);
      assert videos[..v + 1][..v] == videos[..v];
      files := Put(files, id, Asset(ctime(filePath), filePath, videos[v], Video));
    }
    assert videos[..|videos|] == videos;
  }

  /** The loop over image_files. */
  method StoreImages(dir: string, images: seq<string>, ctime: string -> int, hash: string -> string,
                     allFiles: seq<Entry>, processed: set<string>)
    returns (files: seq<Entry>, done: set<string>)
    requires dir != [] && NoSeparator(images)
    requires forall p :: p in processed ==> ParentOf(p).Some? && ParentOf(p).value != Folder(dir)
    ensures files == PutAll(allFiles, ImageEntries(dir, images, |images|, ctime, hash))
    ensures forall p :: p in done ==> p in processed || ParentOf(p) == Some(Folder(dir))
  {
    files := allFiles;
    done := processed;
    forall s | 0 <= s < |images| ensures Join(dir, images[s]) !in processed {
      assert images[s] in images;
      ParentOfJoin(dir, images[s]);
    }
    for j := 0 to |images|
      invariant files == PutAll(allFiles, ImageEntries(dir, images, j, ctime, hash))
      invariant forall p :: p in done ==> p in processed || ParentOf(p) == Some(Folder(dir))
      invariant forall s :: 0 <= s < |images| ==> (Join(dir, images[s]) in done <==> GroupedBefore(images, j, s))
    {
      PutAllConcat(allFiles, ImageEntries(dir, images, j, ctime, hash), ImageEntryAt(dir, images, j, ctime, hash));
      files, done := StoreImage(dir, images, j, ctime, hash, files, done);
    }
  }

  /** One turn of the loop over image_files: skip an image already grouped,
      store the record of a new sequence or of a standalone image. */
  method StoreImage(dir: string, images: seq<string>, j: nat, ctime: string -> int, hash: string -> string,
                    allFiles: seq<Entry>, processed: set<string>)
    returns (files: seq<Entry>, done: set<string>)
    requires j < |images| && dir != [] && NoSeparator(images)
    requires forall s :: 0 <= s < |images| ==> (Join(dir, images[s]) in processed <==> GroupedBefore(images, j, s))
    ensures files == PutAll(allFiles, ImageEntryAt(dir, images, j, ctime, hash))
    ensures forall p :: p in done ==> p in processed || ParentOf(p) == Some(Folder(dir))
    ensures forall s :: 0 <= s < |images| ==> (Join(dir, images[s]) in done <==> GroupedBefore(images, j + 1, s))
  {
    GroupedStep(images, j);
    files, done := allFiles, processed;
    if Join(dir, images[j]) in processed {
      return;
    }
    match ParseFrame(images[j])
    case Some(f) =>
      var frameList;
      frameList, done := CollectFrames(dir, images, f, processed);
      OwnGroup(dir, images, j);
      if frameList != [] {
        var first := MinFrame(frameList);
        var last := MaxNumber(frameList);
        var displayName := SequenceName(f.base, first.number, last, f.ext);
        var id := hash(first.path);
        files := Put(files, id, Asset(ctime(first.path), first.path, displayName,
                                      Sequence(|frameList|, first.number, last)));
      }
    case None =>
      var filePath := Join(dir, images[j]);
      var id := hash(filePath);
      files := Put(files, id, Asset(ctime(filePath), filePath, images[j], Image));
  }

  /** The loop that gathers frame_list for the sequence of f and marks its
      frame paths as processed. */
  method CollectFrames(dir: string, images: seq<string>, f: FrameName, processed: set<string>)
    returns (frameList: seq<Frame>, done: set<string>)
    requires dir != [] && NoSeparator(images)
    ensures frameList == Group(dir, images, f)
    ensures forall p :: p in done ==> p in processed || ParentOf(p) == Some(Folder(dir))
    ensures forall s :: 0 <= s < |images| ==>
              (Join(dir, images[s]) in done <==> Join(dir, images[s]) in processed || InGroup(images[s], f))
  {
    frameList := [];
    done := processed;
    for k := 0 to |images|
      invariant frameList == Group(dir, images[..k], f)
      invariant forall p :: p in done ==> p in processed || ParentOf(p) == Some(Folder(dir))
      invariant Marked(dir, images, k, f, processed, done)
    {
      frameList, done := CollectFrame(dir, images, k, f, processed, frameList, done);
    }
    assert images[..|images|] == images;
    forall s | 0 <= s < |images| && InGroup(images[s], f) ensures SeenInGroup(images, |images|, images[s], f) {
    }
  }

  /** One turn of that loop: a frame file of the sequence adds its tuple and
      its path. */
  method CollectFrame(dir: string, images: seq<string>, k: nat, f: FrameName, processed: set<string>,
                      frameList: seq<Frame>, done: set<string>)
    returns (frames: seq<Frame>, marked: set<string>)
    requires k < |images| && dir != [] && NoSeparator(images)
    requires frameList == Group(dir, images[..k], f)
    requires forall p :: p in done ==> p in processed || ParentOf(p) == Some(Folder(dir))
    requires Marked(dir, images, k, f, processed, done)
    ensures frames == Group(dir, images[..k + 1], f)
    ensures forall p :: p in marked ==> p in processed || ParentOf(p) == Some(Folder(dir))
    ensures Marked(dir, images, k + 1, f, processed, marked)
  {
    GroupStep(dir, images, k, f);
    MarkStep(dir, images, k, f, processed, done);
    frames, marked := frameList, done;
    match ParseFrame(images[k])
    case Some(m) =>
      if m.base == f.base && m.ext == f.ext {
        var framePath := Join(dir, images[k]);
        frames := frameList + [Frame(FrameNumber(m), images[k], framePath)];
        assert images[k] in images;
        ParentOfJoin(dir, images[k]);
        marked := done + {framePath};
      }
    case None =>
  }

  /** The paths of the images are in done exactly when they were processed
      before or are among the first k images of the sequence of f. */
  predicate Marked(dir: string, images: seq<string>, k: nat, f: FrameName, processed: set<string>, done: set<string>)
    requires k <= |images|
  {
    forall s :: 0 <= s < |images| ==>
      (Join(dir, images[s]) in done <==> Join(dir, images[s]) in processed || SeenInGroup(images, k, images[s], f))
  }

  lemma MarkStep(dir: string, images: seq<string>, k: nat, f: FrameName, processed: set<string>, done: set<string>)
    requires k < |images| && Marked(dir, images, k, f, processed, done)
    ensures Marked(dir, images, k + 1, f, processed,
                   if InGroup(images[k], f) then done + {Join(dir, images[k])} else done)
  {
    forall s | 0 <= s < |images| && Join(dir, images[s]) == Join(dir, images[k])
      ensures images[s] == images[k]
    {
      JoinSameDir(dir, images[s], images[k]);
    }
  }

  lemma GroupStep(dir: string, images: seq<string>, k: nat, f: FrameName)
    requires k < |images|
    ensures Group(dir, images[..k + 1], f) ==
              Group(dir, images[..k], f) + (if InGroup(images[k], f) then [FrameOf(dir, images[k])] else [])
  {
    assert images[..k + 1][..k] == images[..k];
  }

  /** One of the first k images is name and in the sequence of f. */
  predicate SeenInGroup(images: seq<string>, k: nat, name: string, f: FrameName)
    requires k <= |images|
  {
    exists t :: 0 <= t < k && images[t] == name && InGroup(name, f)
  }

  /** How GroupedBefore moves on when image j has been handled: a frame
      file's sequence now also counts as seen when image j is in it. */
  lemma GroupedStep(images: seq<string>, j: nat)
    requires j < |images|
    ensures GroupedBefore(images, j, j) || ParseFrame(images[j]).None? ==>
              forall s :: 0 <= s < |images| ==> (GroupedBefore(images, j + 1, s) <==> GroupedBefore(images, j, s))
    ensures ParseFrame(images[j]).Some? ==>
              forall s :: 0 <= s < |images| ==>
                (GroupedBefore(images, j + 1, s) <==>
                 GroupedBefore(images, j, s) || InGroup(images[s], ParseFrame(images[j]).value))
  {
    if GroupedBefore(images, j, j) || ParseFrame(images[j]).None? {
      GroupedStepSeen(images, j);
    }
    if ParseFrame(images[j]).Some? {
      GroupedStepNew(images, j);
    }
  }

  lemma GroupedStepSeen(images: seq<string>, j: nat)
    requires j < |images| && (GroupedBefore(images, j, j) || ParseFrame(images[j]).None?)
    ensures forall s :: 0 <= s < |images| ==> (GroupedBefore(images, j + 1, s) <==> GroupedBefore(images, j, s))
  {
    forall s | 0 <= s < |images| && GroupedBefore(images, j + 1, s)
      ensures GroupedBefore(images, j, s)
    {
      var ks := ParseFrame(images[s]).value;
      var t :| 0 <= t < j + 1 && InGroup(images[t], ks);
      if t == j {
        var u :| 0 <= u < j && InGroup(images[u], ParseFrame(images[j]).value);
        assert InGroup(images[u], ks);
      }
    }
  }

  lemma GroupedStepNew(images: seq<string>, j: nat)
    requires j < |images| && ParseFrame(images[j]).Some?
    ensures forall s :: 0 <= s < |images| ==>
              (GroupedBefore(images, j + 1, s) <==>
               GroupedBefore(images, j, s) || InGroup(images[s], ParseFrame(images[j]).value))
  {
    var kj := ParseFrame(images[j]).value;
    forall s | 0 <= s < |images|
      ensures GroupedBefore(images, j + 1, s) <==> GroupedBefore(images, j, s) || InGroup(images[s], kj)
    {
      if InGroup(images[s], kj) {
        assert InGroup(images[j], ParseFrame(images[s]).value);
      }
    }
  }

  // ---------------------------------------------------------------------------
  // Properties of the records
  // ---------------------------------------------------------------------------

  /** The sequence of a frame file depends only on base and extension. */
  lemma {:induction false} GroupSameKey(dir: string, images: seq<string>, k1: FrameName, k2: FrameName)
    requires SameSequence(k1, k2)
    ensures Group(dir, images, k1) == Group(dir, images, k2)
  {
    if images != [] {
      GroupSameKey(dir, images[..|images| - 1], k1, k2);
    }
  }

  /** Some image of the sequence of key comes first among the images. */
  lemma {:induction false} FirstInGroup(images: seq<string>, key: FrameName, t: nat)
    requires t < |images| && InGroup(images[t], key)
    ensures exists u :: 0 <= u <= t && InGroup(images[u], key)
                        && forall v :: 0 <= v < u ==> !InGroup(images[v], key)
    decreases t
  {
    if exists v :: 0 <= v < t && InGroup(images[v], key) {
      var v :| 0 <= v < t && InGroup(images[v], key);
      FirstInGroup(images, key, v);
    }
  }

  /** Only the first image of a sequence yields a record: every later image
      of the same sequence yields none. */
  lemma LaterFrameSkipped(dir: string, images: seq<string>, t: nat, u: nat,
                          ctime: string -> int, hash: string -> string)
    requires t < u < |images| && ParseFrame(images[t]).Some?
    requires InGroup(images[u], ParseFrame(images[t]).value)
    ensures ImageEntryAt(dir, images, u, ctime, hash) == []
  {
    assert InGroup(images[t], ParseFrame(images[u]).value);
  }

  /** Every frame file's sequence is recorded once, by its first image, with
      the record of the whole sequence. */
  lemma SequenceRecorded(dir: string, images: seq<string>, t: nat,
                         ctime: string -> int, hash: string -> string)
    requires t < |images| && ParseFrame(images[t]).Some?
    ensures Group(dir, images, ParseFrame(images[t]).value) != []
            && exists u :: 0 <= u <= t && InGroup(images[u], ParseFrame(images[t]).value)
                        && ImageEntryAt(dir, images, u, ctime, hash)
                           == [SequenceEntry(dir, images, ParseFrame(images[t]).value, ctime, hash)]
  {
    var key := ParseFrame(images[t]).value;
    OwnGroup(dir, images, t);
    assert InGroup(images[t], key);
    FirstInGroup(images, key, t);
    var u :| 0 <= u <= t && InGroup(images[u], key) && forall v :: 0 <= v < u ==> !InGroup(images[v], key);
    var ku := ParseFrame(images[u]).value;
    forall v | 0 <= v < u ensures !InGroup(images[v], ku) {
      assert !InGroup(images[v], key);
    }
    assert !GroupedBefore(images, u, u);
    GroupSameKey(dir, images, ku, key);
  }

  /** A sequence record counts every frame file of its sequence, its range
      runs from the least frame number to the largest, and it is stored
      under the hash of the least frame's path, with that frame's ctime. */
  lemma SequenceEntryFacts(dir: string, images: seq<string>, key: FrameName,
                           ctime: string -> int, hash: string -> string)
    requires Group(dir, images, key) != []
    ensures var e := SequenceEntry(dir, images, key, ctime, hash);
            var g := Group(dir, images, key);
            && e.1.kind.Sequence?
            && e.1.kind.frameCount == |g| >= 1
            && e.1.kind.firstFrame <= e.1.kind.lastFrame
            && (forall x :: x in g ==> e.1.kind.firstFrame <= x.number <= e.1.kind.lastFrame)
            && (exists x :: x in g && x.path == e.1.path && x.number == e.1.kind.firstFrame)
            && e.0 == hash(e.1.path) && e.1.ctime == ctime(e.1.path)
            && e.1.name == SequenceName(key.base, e.1.kind.firstFrame, e.1.kind.lastFrame, key.ext)
  {
    var g := Group(dir, images, key);
    var first := MinFrame(g);
    assert first in g;
  }

  // ---------------------------------------------------------------------------
  // The scan result as a dict
  // ---------------------------------------------------------------------------

  /** Storing records keeps a dict a dict ... */
  lemma {:induction false} PutAllDistinct(acc: seq<Entry>, es: seq<Entry>)
    requires DistinctKeys(acc)
    ensures DistinctKeys(PutAll(acc, es))
  {
    if es != [] {
      var last := es[|es| - 1];
      PutAllDistinct(acc, es[..|es| - 1]);
      PutSpec(PutAll(acc, es[..|es| - 1]), last.0, last.1, last.0);
    }
  }

  /** ... and adds exactly the ids of the records. */
  lemma {:induction false} PutAllHasKey(acc: seq<Entry>, es: seq<Entry>, k: string)
    ensures HasKey(PutAll(acc, es), k) <==> HasKey(acc, k) || HasKey(es, k)
  {
    if es != [] {
      var init := es[..|es| - 1];
      var last := es[|es| - 1];
      PutAllHasKey(acc, init, k);
      assert es == init + [last];
      KeysAppend(init, last);
      PutSpec(PutAll(acc, init), last.0, last.1, k);
    }
  }

  /** The stored record of an id is the last record produced under it. */
  lemma {:induction false} PutAllLastWins(acc: seq<Entry>, es: seq<Entry>, i: nat)
    requires i < |es| && forall j :: i < j < |es| ==> es[j].0 != es[i].0
    ensures Get(PutAll(acc, es), es[i].0) == Some(es[i].1)
  {
    var init := es[..|es| - 1];
    var last := es[|es| - 1];
    PutSpec(PutAll(acc, init), last.0, last.1, es[i].0);
    if i < |es| - 1 {
      PutAllLastWins(acc, init, i);
    }
  }

  /** The completed scan is a dict, newest first, holding an entry for every
      id the scan produced and no other; the record under an id is the last
      one produced under it. */
  lemma ScanResult(dirs: seq<Dir>, ctime: string -> int, hash: string -> string)
    ensures DistinctKeys(Scan(dirs, ctime, hash))
    ensures Descending(Scan(dirs, ctime, hash))
    ensures forall k :: HasKey(Scan(dirs, ctime, hash), k) <==> HasKey(ScanEntries(dirs, ctime, hash), k)
  {
    var stored := PutAll([], ScanEntries(dirs, ctime, hash));
    PutAllDistinct([], ScanEntries(dirs, ctime, hash));
    forall k ensures HasKey(stored, k) <==> HasKey(ScanEntries(dirs, ctime, hash), k) {
      PutAllHasKey([], ScanEntries(dirs, ctime, hash), k);
    }
    SortKeepsDict(stored);
    SortDescending(stored);
  }

  // ---------------------------------------------------------------------------
  // run
  // ---------------------------------------------------------------------------

  /** SearchWorker.run: the dicts search_completed carries, in order. A
      completed scan emits its result from collect_version_folders and once
      more from run; a stopped scan returns nothing and run emits {}. */
  method Run(dirs: seq<Dir>, stopFlags: seq<bool>, ctime: string -> int, hash: string -> string)
    returns (emitted: seq<seq<Entry>>)
    requires |stopFlags| == |dirs| && WalkOrder(dirs)
    ensures StopRequested(stopFlags) ==> emitted == [[]]
    ensures !StopRequested(stopFlags) ==> emitted == [Scan(dirs, ctime, hash), Scan(dirs, ctime, hash)]
  {
    var result := CollectVersionFolders(dirs, stopFlags, ctime, hash);
    emitted := [];
    if result.Some? {
      emitted := emitted + [result.value];
    }
    var orEmpty := if result.Some? then result.value else [];
    emitted := emitted + [orEmpty];
  }
}
