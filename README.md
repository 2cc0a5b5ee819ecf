# LocalAssetBrowser: a verified model of the scan and catalog core

LocalAssetBrowser is a desktop browser for media assets on a local disk: videos, still images and numbered image sequences such as `shot.0001.exr … shot.0240.exr`. This Dafny project models the logic behind the windows and threads.

- **Directory scan (`Search`, with `Classify`, `Frames`, `Assets` and `CtimeSort`).** The scan classifies each directory listing by file suffix. It groups the frame files of one sequence into one `sequence` record with a frame range and a padded display name. Every record is stored under a hash of its path. The finished catalog is sorted by creation time, newest first. Two things are modelled as well:
  - the `.db` skip and unreadable-folder skip;
  - the cancellation check.
- **Catalog merge (`CatalogMerge`).** The recursive merge of two JSON-like dicts, in which left-hand scalars win. Also the loop that adds missing catalog entries to the stored database.
- **Worker threads (`Workers`, `Thumbnails`):**
  - the LRU pixmap cache;
  - the table builder, which sends catalog rows in batches of 250 and honours a stop flag;
  - the thumbnail job decision (target name, skip-if-present, tool choice);
  - the pool size;
  - the completion loop that writes each produced thumbnail path back into its record.
- **Main-window decisions (`Browser`, `DragPayload`):**
  - the field order of the info panel;
  - which paths a drag carries, de-duplicated in order;
  - the UTF-16LE `FileNameW` list and the Win32 `DROPFILES` block of the `CF_HDROP` clipboard format;
  - the batched creation of grid widgets;
  - the row-height clamps.

Modelling choices:
- Dicts are association lists (`seq<(string, V)>`), so that insertion order, which Python dicts keep, can be stated.
- JSON values are `Json.Value` = `Str | Num | Obj(fields)`.
- The filesystem, the clock and SHA-1 are inputs:
  - a sequence of directories with their listings, in walk order;
  - a `ctime` function;
  - a `hash` or `sha1` function;
  - an `onDisk` existence predicate.
- Paths use `/` as the separator. `Common.Join` follows `posixpath.join`: no separator is added after a directory that already ends in `/`, such as a library root `D:/`.

## Model

| member | source | states |
|---|---|---|
| Classify.VideoNotImage | support_files/search.py:38-39 | no file name is classified both as a video and as an image: the two suffix sets cannot both end a name |
| Classify.ClassifyIgnoresCase | support_files/search.py:68-69 | classification looks at the lower-case name only, so a name and its lower-case form are classified alike |
| Classify.ParseFrameSound | support_files/search.py:43 | a successful match yields a decomposition base + separator + 3 to 6 digits + dot-free extension of exactly that name |
| Classify.ParseFrameComplete | support_files/search.py:43 | every decomposition that fits the pattern is the one the match returns, so the match is unique and the lazy base is moot |
| Classify.ParseFrameIff | support_files/search.py:90-94 | a name matches the frame pattern exactly when some decomposition of it fits the pattern |
| Classify.DigitRun | support_files/search.py:43 | the trailing run of digits of a stem is all digits and maximal |
| Classify.FrameNumber | support_files/search.py:101 | the integer value of a 3-6 digit group is at most 999999 |
| Classify.SequenceNameParts | support_files/search.py:111 | the display name is base, "[", first frame padded to at least four digits, "-", last frame padded alike, "]", extension, and each padded number reads back as its value |
| Classify.SequenceNameNotFrame | support_files/search.py:111 | a sequence display name never itself looks like a frame file |
| Common.DecimalRoundTrip | support_files/search.py:101 | reading back the decimal spelling of a number gives the number |
| Common.ZeroPaddedRoundTrip | support_files/search.py:111 | zero padding to a width keeps the value, and the result has at least that many digits |
| Common.DirnameOfJoin | LocalAssetBrowser.py:517 | the folder of a path joined from a folder and a plain name is that folder |
| Common.ParentOfJoin | support_files/search.py:100 | a plain name joined below a non-empty directory has that directory, less one trailing "/", before its last separator; below the empty directory it has no separator |
| Common.JoinSameDir | support_files/search.py:100 | below one directory, different names give different paths |
| Common.SplitJoin | support_files/search.py:59 | splitting a path on the separator and joining the pieces with it restores the path |
| Common.SegmentInherited | support_files/search.py:58-60 | a path with a ".db" segment keeps it in every path below it |
| Frames.MinFrame | support_files/search.py:105-108 | the first tuple after sorting is a member of the frame list and is not above any other by (number, file name, path) |
| Frames.MaxNumber | support_files/search.py:105-107 | the last tuple's frame number is a member's number and is not below any member's |
| Frames.SortedFirstLast | support_files/search.py:105-108 | for any sorted permutation of the frame list, its first entry is MinFrame and its last number is MaxNumber |
| Frames.FrameLeqTotal | support_files/search.py:105 | tuple order on frames is total, so the sort is well defined |
| Frames.FrameLeqTrans | support_files/search.py:105 | tuple order on frames is transitive |
| Frames.FrameLeqAntisym | support_files/search.py:105 | tuple order on frames is antisymmetric |
| Assets.AssetJsonShape | support_files/search.py:76-134 | a record has exactly the keys its kind prescribes, in the written order, and is a well-formed JSON object |
| Assets.AssetJsonId | support_files/search.py:76-134 | a record has an "id" field exactly when it is not a standalone image |
| Assets.AssetJsonValues | support_files/search.py:77-133 | the "id" field holds the hash key, "type" the kind's name and "path" the record's path |
| Assets.CatalogWellFormed | support_files/search.py:140-141 | a catalog with distinct ids is a well-formed JSON object |
| CtimeSort.SortDescending | support_files/search.py:140 | the sorted catalog lists creation times from newest to oldest |
| CtimeSort.SortStable | support_files/search.py:140 | records with the same creation time keep their discovery order |
| CtimeSort.SortByCtimeDesc | support_files/search.py:140 | the sorted catalog is a permutation of the stored one |
| CtimeSort.SortKeepsDict | support_files/search.py:140 | sorting keeps the ids distinct and keeps exactly the same ids |
| Search.SkipInherited | support_files/search.py:58-60 | every directory below a skipped ".db" directory is skipped too |
| Search.VideoFiles | support_files/search.py:68 | the video list holds exactly the listed names classified as video |
| Search.ImageFiles | support_files/search.py:69 | the image list holds exactly the listed names classified as image |
| Search.GroupHas | support_files/search.py:97-101 | every frame file of a sequence has its tuple in the frame list |
| Search.GroupOnly | support_files/search.py:97-101 | the frame list holds nothing but tuples of frame files of that sequence |
| Search.LaterFrameSkipped | support_files/search.py:87-102 | a later image of an already grouped sequence yields no record |
| Search.SequenceRecorded | support_files/search.py:85-122 | every frame file's sequence is recorded exactly once, by its first image, with the record of the whole sequence |
| Search.SequenceEntryFacts | support_files/search.py:104-122 | a sequence record counts every frame file, spans the least to the largest frame number, lies under the hash of the least frame's path with that frame's ctime, and carries the padded display name |
| Search.PutAllLastWins | support_files/search.py:76-134 | the record stored under an id is the last one produced under it |
| Search.PutAllHasKey | support_files/search.py:76-134 | storing records adds exactly their ids |
| Search.ScanResult | support_files/search.py:139-141 | the completed catalog has distinct ids, runs newest first, and holds exactly the ids the scan produced |
| Search.CollectVersionFolders | support_files/search.py:29-142 | the scan loop returns nothing exactly when a stop was requested before some directory, and otherwise the sorted catalog of all records |
| Search.ScanDirectory | support_files/search.py:62-134 | one listed directory stores its video records and then its image and sequence records in listing order, and marks only its own frame paths as processed |
| Search.StoreImage | support_files/search.py:85-134 | an image already grouped is skipped; the first image of a sequence stores the sequence record; any other image stores a standalone record |
| Search.CollectFrames | support_files/search.py:96-102 | the frame list gathered is the sequence's tuples in listing order, and exactly the sequence's frame paths are marked as processed |
| Search.Run | support_files/search.py:25-142 | a completed scan emits its catalog twice; a stopped scan emits only the empty dict |
| ScanExamples.DisplayName | support_files/search.py:111 | frames 1 to 5 of "shot" with ".exr" are shown as shot[0001-0005].exr |
| ScanExamples.PairRecord | support_files/search.py:96-122 | two frame files of one sequence yield one record with count 2, the smaller and larger frame numbers, and the lesser frame's path as its key |
| ScanExamples.RootVideo | support_files/search.py:73-82 | a video in the library root "D:/" is stored under the path "D:/a.mov" and its hash, with no doubled separator |
| ScanExamples.TooFewDigits | support_files/search.py:43 | a two-digit frame number is not a frame file |
| CatalogMerge.Combined | LocalAssetBrowser.py:270-280 | the shared-key part keeps dict1's keys in order, each merged with dict2's value under that key |
| CatalogMerge.MergeMatchesSpec | LocalAssetBrowser.py:270-282 | the merge is dict1's fields, each combined with dict2's value, followed by dict2's new fields in dict2's order |
| CatalogMerge.MergeKeys | LocalAssetBrowser.py:270-276 | the merged keys are dict1's keys and then dict2's new ones; a key is present exactly when it is in either input; keys stay distinct |
| CatalogMerge.MergePrecedence | LocalAssetBrowser.py:273-280 | on a shared key the result is dict1's value, or the recursive merge when both are dicts; otherwise it is dict2's value |
| CatalogMerge.MergeIdentity | LocalAssetBrowser.py:270-282 | merging with an empty dict on either side gives the other dict |
| CatalogMerge.MergeWellFormed | LocalAssetBrowser.py:270-282 | merging well-formed objects gives a well-formed object |
| CatalogMerge.MergeSelf | LocalAssetBrowser.py:270-282 | merging a dict with itself gives it back |
| CatalogMerge.MergeIdempotent | LocalAssetBrowser.py:270-282 | merging the same incoming dict a second time changes nothing |
| CatalogMerge.NewEntriesMembers | LocalAssetBrowser.py:273-275 | the added fields are exactly dict2's fields whose key dict1 lacks |
| CatalogMerge.AddMissing | LocalAssetBrowser.py:173-175 | the add-missing loop leaves the stored data as it was and appends the new entries in file-list order |
| CatalogMerge.AddMissingTwice | LocalAssetBrowser.py:173-175 | running the add-missing loop again with the same file list adds nothing |
| Browser.InfoPanelSpec | LocalAssetBrowser.py:234-240 | the info panel lists exactly the record's fields, once each; the fixed names come first and then the other fields in record order |
| Browser.FixedFieldsOrder | LocalAssetBrowser.py:234-235 | the fixed fields appear in the order of the fixed name list |
| Browser.ArrangeLayout | LocalAssetBrowser.py:235-240 | a field is in the leading part exactly when its name is on the fixed list, and the rest is the record's other fields in record order |
| Browser.ArrangePermutation | LocalAssetBrowser.py:235-240 | the ordered panel is a permutation of the record's fields |
| Browser.SortedFields | LocalAssetBrowser.py:234-240 | the two loops of load_file build the info-panel order, which holds the record's fields once each |
| Browser.DragPath | LocalAssetBrowser.py:501-520 | no path exactly for a row outside the table or without a path cell |
| Browser.DragPathOfRecord | LocalAssetBrowser.py:513-518 | a sequence row drags the folder of its path, and a video or image row drags the path itself |
| Browser.DragSequenceFolder | LocalAssetBrowser.py:515-517 | a sequence whose frame lies in a folder drags exactly that folder |
| Browser.RowsToDrag | LocalAssetBrowser.py:543-547 | the selected rows when the pressed row is one of them, else the pressed row alone |
| Browser.CandidatesSound | LocalAssetBrowser.py:552-554 | every candidate path comes from some dragged row |
| Browser.CandidatesComplete | LocalAssetBrowser.py:552-554 | every non-empty path of a dragged row is a candidate |
| Browser.DedupMembers | LocalAssetBrowser.py:550-556 | de-duplication keeps every member exactly once |
| Browser.DedupOrder | LocalAssetBrowser.py:550-556 | the kept paths follow the order of their first occurrences |
| Browser.CollectPaths | LocalAssetBrowser.py:550-556 | the loop with its seen set computes the order-preserving de-duplication of the candidate paths |
| Browser.DragPaths | LocalAssetBrowser.py:540-556 | the dragged paths have no repeats and are exactly the non-empty paths of the dragged rows, de-duplicated in first-occurrence order |
| Browser.Popped | LocalAssetBrowser.py:212 | a batch pops the whole queue or exactly the batch size, whichever is smaller, and nothing for a non-positive size |
| Browser.WidgetQueue.constructor | LocalAssetBrowser.py:204-206 | a fresh queue is empty, with nothing shown and no batch pending |
| Browser.WidgetQueue.ProcessBatch | LocalAssetBrowser.py:208-223 | a batch moves the front of the queue, in order, to the created widgets; the flag stays set exactly while items remain |
| Browser.WidgetQueue.Enqueue | LocalAssetBrowser.py:203-206 | a new item joins the back of the queue; with no batch pending, a batch runs at once |
| Browser.WidgetQueue.Drain | LocalAssetBrowser.py:219-223 | the scheduled batches create every queued item's widget in FIFO order and leave the queue idle |
| Browser.RowHeight | LocalAssetBrowser.py:441 | the row height is at least one pixel and equals the request when that is at least one |
| Browser.ThumbnailHeight | LocalAssetBrowser.py:454 | the thumbnail is ten pixels shorter than the row but never below 16 |
| Browser.RequiredHeight | LocalAssetBrowser.py:659 | the taller of info widget and thumbnail, clamped to [min, max], with the minimum winning when the bounds cross |
| Browser.SetTableRowHeight | LocalAssetBrowser.py:435-463 | the default section size and every row get the clamped height; an existing delegate gets that row height and the thumbnail height derived from it; without a delegate nothing else changes |
| Browser.AutoAdjustRowHeights | LocalAssetBrowser.py:631-663 | every row gets the clamped height of its info widget (0 when it has none) or of the thumbnail |
| DragPayload.UnitsRoundTrip | LocalAssetBrowser.py:579 | decoding the UTF-16 code units of a string gives the string back |
| DragPayload.Utf16LeRoundTrip | LocalAssetBrowser.py:579 | decoding the UTF-16LE bytes of a string gives the string back |
| DragPayload.UnitsNonZero | LocalAssetBrowser.py:579 | a string without NUL encodes to code units that are all non-zero, so the terminator is unambiguous |
| DragPayload.FileNameWUnits | LocalAssetBrowser.py:579 | the FileNameW bytes are the little-endian bytes of each path's units followed by a zero unit, then a final zero unit |
| DragPayload.FileNameWRoundTrip | LocalAssetBrowser.py:579 | parsing the FileNameW list of non-empty, NUL-free paths gives the paths back |
| DragPayload.FileNameWInjective | LocalAssetBrowser.py:579 | different lists of non-empty, NUL-free paths never share a FileNameW encoding |
| DragPayload.U32RoundTrip | LocalAssetBrowser.py:594 | an unsigned 32-bit field reads back from its four little-endian bytes |
| DragPayload.I32RoundTrip | LocalAssetBrowser.py:594 | a signed 32-bit field reads back from its four little-endian two's-complement bytes |
| DragPayload.DropHeaderBytes | LocalAssetBrowser.py:593-594 | the DROPFILES header is the 20 bytes 20,0,0,0 / 0×4 / 0×4 / 0×4 / 1,0,0,0 |
| DragPayload.CfHdropRoundTrip | LocalAssetBrowser.py:593-595 | parsing a CF_HDROP block gives drop point (0, 0), a non-client flag of false, and the original paths |
| Workers.PixmapCache.constructor | support_files/workers.py:11-14 | a new cache is empty with the given size bound, and its invariant holds |
| Workers.PixmapCache.Get | support_files/workers.py:16-22 | a present key yields its value and moves to the most recent end; an absent key yields nothing and changes nothing |
| Workers.PixmapCache.Put | support_files/workers.py:24-33 | re-putting replaces the value and moves the key to the end; a new key into a full cache evicts exactly the least recent key; the order list stays a duplicate-free list of the keys, within the size bound |
| Workers.PixmapCache.Clear | support_files/workers.py:35-37 | cache and order list are both empty afterwards |
| Workers.CacheSize | support_files/workers.py:12-33 | under the invariant the order list has one entry per key, and with a positive bound the cache never exceeds it |
| Workers.EvictsOnlyOldest | support_files/workers.py:27-33 | eviction removes only the least recent key, adds the new one, and keeps every other entry and the size |
| Workers.RemoveFirstMembers | support_files/workers.py:19-26 | removing a key from a duplicate-free order list leaves the other keys, without repeats |
| Workers.GetOr | support_files/workers.py:142-145 | the value under a key, and "" when the record lacks it |
| Workers.ExtraFields | support_files/workers.py:161-163 | the extra fields are exactly the record's fields other than name, type, path, ctime and thumbnail |
| Workers.ExtraInfoLines | support_files/workers.py:156-166 | after the optional date line, the extra-info text has one "k: v" line per extra field, in record order |
| Workers.StringFieldLine | support_files/workers.py:162-164 | when str() of a string is the string itself, a string field's line is its key, ": " and the string verbatim |
| Workers.BuildExtraInfo | support_files/workers.py:148-166 | the loop builds the extra-info text of the record |
| Workers.ExtraLines | support_files/workers.py:160-164 | the loop over the record's items yields one "k: v" line per non-excluded field, in record order |
| Workers.BuildRow | support_files/workers.py:142-176 | the loop body turns one catalog entry into its row: id, defaulted name, type, path and thumbnail, and the extra-info text |
| Workers.AddRow | support_files/workers.py:177-186 | appending a row keeps the pending batch and the emitted events equal to their description after one more row: a full batch or the last row goes out, with a status every 500 rows and at the end |
| Workers.RowFields | support_files/workers.py:142-176 | a row carries the record's id, name, type, path and thumbnail |
| Workers.RowDefaults | support_files/workers.py:142-145 | a missing name, type, path or thumbnail shows as "" |
| Workers.Processed | support_files/workers.py:136-137 | the worker handles exactly the entries before the first time is_running reads false |
| Workers.BuildTable | support_files/workers.py:126-189 | the events are the batches and statuses for the processed rows, then finished; an empty catalog emits only finished |
| Workers.CompletedRun | support_files/workers.py:130-186 | without a stop, the batches concatenate to one row per catalog entry, in order; every batch has 1 to 250 rows and all but the last exactly 250 |
| Workers.StoppedRun | support_files/workers.py:136-186 | after a stop, the rows sent are the catalog prefix up to the last full batch, and the pending partial batch is dropped |
| Workers.ChunksFlatten | support_files/workers.py:180-186 | the batches of a row list concatenate back to it |
| Workers.StatusEvents | support_files/workers.py:180-186 | a status event is sent exactly at every 500th row and at the last row |
| Thumbnails.ConvertSpec | support_files/ffmpeg_worker.py:91-112 | the target is the thumbnail folder joined with the source's hash plus ".jpeg"; no tool runs exactly when the target exists; otherwise oiiotool runs for a lower-case ".exr" source and ffmpeg for any other |
| Thumbnails.TargetPathSpec | support_files/ffmpeg_worker.py:95-97 | different hashes give different targets, and every target lies directly in the thumbnail folder (less a trailing "/") |
| Thumbnails.JobInput | support_files/ffmpeg_worker.py:75 | the job input is a string record itself, or a dict record's "path" field |
| Thumbnails.JobResult | support_files/ffmpeg_worker.py:73-78 | a job returns the target path of its input whenever it has one, whatever the tool did |
| Thumbnails.PoolSize | support_files/ffmpeg_worker.py:25-32 | the pool has at least one worker, no more than the files or the CPUs, and exactly one when there are no files or the CPU count fails or is 0 |
| Thumbnails.AttachedAllSpec | support_files/ffmpeg_worker.py:43-52 | after all completions a record's thumbnail is its job's path when the job produced one; otherwise the record is unchanged; no other field changes |
| Thumbnails.Complete | support_files/ffmpeg_worker.py:22-71 | for any completion order, the records end as AttachedAll and the status log is the opening message, one note per completion, the closing message and finished |
| Thumbnails.LogDones | support_files/ffmpeg_worker.py:55-65 | the i-th "done" message counts i + 1 completions and carries the 1-based catalog position and the display name of the job finished i-th |

## Left out

- Filesystem, clock and hashing are inputs. These stand for `os.walk`, `os.listdir`, `os.path.getctime`, `os.path.exists` and SHA-1: the directory list with listings, `ctime`, `hash`/`sha1` and `onDisk`. `ctime` is an integer, not a float.
- Search.CollectVersionFolders: requires WalkOrder. Every directory path is non-empty and appears once, also when a trailing `/` is ignored, and listed names contain no separator, as `os.walk` and `os.listdir` guarantee.
- Search.Run: the scan's failure paths are not modelled. `os.listdir` can raise an `OSError` other than `PermissionError`, for example `FileNotFoundError` for a directory removed after the walk, and `os.path.getctime` can raise, for example on a dangling link. Either exception escapes `run()`, so `search_completed` is never emitted, while the model's `Run` emits the catalog twice for every scan that is not stopped.
- Search.Run: the `search_status` progress messages of the scan are not modelled.
- Common.Join: a name starting with `/`, which `posixpath.join` returns as it is, is not modelled; every name joined here is a listing entry or a hex digest. The Windows rules of `ntpath.join`, such as drive-relative `D:a` and `\` separators, are not modelled.
- The frame list's in-place sort is not modelled. Only its extremes are read, so `Frames.MinFrame` and `Frames.MaxNumber` give them, and `Frames.SortedFirstLast` ties them to any sorted permutation.
- Classify.ParseFrame: `\d` is taken as the ASCII digits 0-9. Python also matches other Unicode decimal digits. The pattern's IGNORECASE flag changes nothing for this pattern.
- `str.lower()` is modelled for ASCII letters only.
- Progress percentages and their float arithmetic are left out. These are the `search_status` values, `int(index / total * 100)`, the splash percentage and the `h*16/9` column width.
- The date line uses `datetime.fromtimestamp`, which is not modelled. `date` and `show` are parameters.
- Thumbnails.Complete: requires Writable. If a non-dict record's job produced a path, the source raises TypeError at the write-back, and that case is not modelled.
- Error and status texts are not modelled as strings. Where the model records a message, an event stands for it.
- `subprocess.run` is not modelled, nor its exit status, which the source ignores.
- A failing job is an `outcome` of None. The error message is not modelled.
- `ThreadPoolExecutor` concurrency is not modelled. Completions are processed one by one in an arbitrary order, a permutation `perm`.
- Qt widgets, signals, painting, `QTimer` delays and `QMimeData` are not modelled. The widget queue records created widgets in `shown`. `Drain` stands for the chain of timer-scheduled batches.
- The other drag formats are not modelled: the URL list, the UTF-8 `text/uri-list` and `text/plain` payloads, and the ANSI `mbcs` payload, which depends on the Windows code page.
- DragPayload.FileNameWRoundTrip: holds for non-empty paths without NUL. The source's encoding is ambiguous for others, and the drag drops empty paths.
- DragPayload.Utf16LeRoundTrip: Dafny characters are Unicode scalar values, so Python strings holding lone surrogates are not modelled.
- Workers.BuildTable: assumes every catalog value is a dict record. A non-dict value makes the source raise AttributeError.
- Workers.PixmapCache.Put: with a size bound of 0 or less, putting a new key raises IndexError in the source. The model reports that case as `ok == false` and changes nothing.
- `support_files/settings.py` and `support_files/asset_widget.py` are not part of this model.
- JSON loading and saving of the database file are not part of this model.
