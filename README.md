# video_upload: a Dafny model of the frame-ingest bookkeeping

`video_upload/run_video.py` reads a video, stores every frame as a document in
MongoDB, and then flies a few snapshot frames across the screen in OpenCV
windows. The logic the script owns, apart from those libraries, is modelled
here:

- **Naming** (`Naming.dfy`). The path is split on `"."`. The two-name
  unpacking fails with a ValueError unless the path has exactly one dot. The
  base name is then `os.path.basename` of the part before the dot. The stored
  `video_name` is base, `"."`, extension. Frame `cnt` is named base, `"_"`,
  `str(cnt).zfill(5)`, `".png"`.
- **Ingest** (`Ingest.dfy`). This is the `while success:` loop and the flush
  after it:
  - frame `cnt` gets the timestamp `start + step*cnt` in microseconds;
  - each frame becomes one document with `sensor_id` 1;
  - the documents go into the buffer `posts`, which is flushed whenever its
    length is a multiple of 5, and once more after the loop if it is not
    empty;
  - frames 0, 100, 200, … are kept in `image_samples` as snapshots, at most
    nine of them.

  The decoded video is a sequence of opaque frames, and each `insert_many`
  call is recorded as one batch in a returned log.
- **Layout** (`Layout.dfy`). This covers:
  - the grid slot of the k-th snapshot;
  - the coordinates `move_window` sends a window through;
  - the two display loops: out to the slots in sorted order, and back in
    reverse order.
- **Extract** (`Extract.dfy`). `extract_frames` as a whole: split, ingest,
  `sorted(image_samples)`, display.
- **Text** (`Text.dfy`). The Python string behaviour these steps rely on:
  decimal digits, `zfill`, Python's order on strings, `str.split` and
  `os.path.basename`.

The main results:

- **Batches.** The batches, concatenated in order, are exactly the documents
  in frame order. There are ceil(N/5) batches, all but the last holding five
  documents, and the last holding N mod 5 when that is not zero.
- **Snapshots.** They are exactly the first min(9, ceil(N/100)) multiples of
  100. Below index 100000, the sorted order of frame names is frame order, so
  the snapshots are shown in frame order and hidden in reverse.
- **Trajectories.**
  - A hidden window always lands on its end point.
  - A shown window's last position is end - ((end-start) mod n) - floor((end-start)/n).
    For the non-negative distances of the flights out (line 130), that is
    short of the target by the remainder plus one step. Every snapshot stops
    short of its grid slot in both coordinates. The flight back then starts
    from the recorded slot, not from where the window stopped.
  - The slots are far enough apart that 300x200 windows placed on them do not
    overlap. A window reaches its slot only as its flight back starts. The
    windows come to rest at x in {46, 325, 604} and y in {46, 253, 469}, so
    while the snapshots are on display, neighbours in a row overlap by 21
    pixels.

## Model

| member | source | states |
|---|---|---|
| `Text.Decimal` | video_upload/run_video.py:89 | definition of `str(n)` for n >= 0: the digits of n/10, then the digit n mod 10; at least one digit and no leading zero |
| `Text.ZFill` | video_upload/run_video.py:89 | definition of `zfill(width)` on an unsigned digit string: width - len zeros, then the string; the result is max(len, width) long, ends with the string, and everything before it is '0' |
| `Text.LexLess` | video_upload/run_video.py:126 | definition of `<` on Python strings: the first differing character decides, and a proper prefix sorts first |
| `Text.DecimalValue` | video_upload/run_video.py:89 | `str(n)` is a digit string that denotes n |
| `Text.DecimalLength` | video_upload/run_video.py:89 | `str(n)` has at most k digits when n < 10^k |
| `Text.ZFillValue` | video_upload/run_video.py:89 | `zfill` pads with zeros to the width and keeps the number denoted |
| `Text.LexLessIrreflexive` | video_upload/run_video.py:126 | no string sorts before itself |
| `Text.LexLessTransitive` | video_upload/run_video.py:126 | Python's string order is transitive |
| `Text.LexLessTotal` | video_upload/run_video.py:126 | of two different strings one sorts first |
| `Text.LexLessCommonPrefix` | video_upload/run_video.py:126 | a shared prefix does not change how two strings compare |
| `Text.LexLessExtend` | video_upload/run_video.py:126 | equal-length strings in order stay in order whatever follows them |
| `Text.LexLessDigits` | video_upload/run_video.py:126 | on digit strings of one length, string order is exactly numeric order (both directions) |
| `Text.SortedUnique` | video_upload/run_video.py:126 | two strictly sorted lists with the same elements are equal, so `sorted` of a key set is determined by the set |
| `Text.Split` | video_upload/run_video.py:60 | `split(sep)` yields one more piece than there are separators, and no piece holds the separator |
| `Text.JoinSplit` | video_upload/run_video.py:60 | joining the pieces of a split with the separator gives back the string |
| `Text.Basename` | video_upload/run_video.py:61 | `basename` has no '/', ends the path, and is the whole path or follows a '/' |
| `Naming.SplitVideoPath` | video_upload/run_video.py:60-61 | the split succeeds exactly when the path has one '.'; with none it raises "need more values", with more "too many values"; base and extension then contain no '.', and the base no '/' |
| `Naming.VideoName` | video_upload/run_video.py:101 | definition: the stored `video_name` is base + "." + ext |
| `Naming.VideoNameEndsPath` | video_upload/run_video.py:60-61 | on success, base + "." + ext ends the path and is either the whole path or follows some '/'. It contains a '/' exactly when the extension does, so it is the path's last component exactly when the extension has no '/' ("x/a.b/c" gives "a.b/c") |
| `Naming.PaddedIndex` | video_upload/run_video.py:89 | definition: `str(cnt).zfill(5)` |
| `Naming.FrameName` | video_upload/run_video.py:89 | definition: base + "_" + `str(cnt).zfill(5)` + ".png" |
| `Naming.PaddedIndexValue` | video_upload/run_video.py:89 | the padded index is all digits, denotes cnt, and is at least five long (exactly five below 100000) |
| `Naming.FrameNameInjective` | video_upload/run_video.py:89 | equal frame names mean equal frame indices |
| `Naming.FrameNameDistinct` | video_upload/run_video.py:89 | different frames get different names |
| `Naming.FrameNamesOrdered` | video_upload/run_video.py:89 | below 100000, frame i's name sorts before frame j's whenever i < j |
| `Ingest.FrameTimestamp` | video_upload/run_video.py:97 | definition: frame cnt is at start + ms_per_frame * cnt microseconds |
| `Ingest.TimestampStep` | video_upload/run_video.py:97 | consecutive frames are exactly `ms_per_frame` apart |
| `Ingest.TimestampsIncrease` | video_upload/run_video.py:97 | with a positive step timestamps strictly increase with the frame index; with a zero step they are all equal |
| `Ingest.FrameDocs` | video_upload/run_video.py:97-101 | one document per frame, the i-th with sensor 1, the video name, timestamp start + step*i and frame i |
| `Ingest.FrameDocsOrdered` | video_upload/run_video.py:101 | all documents share sensor 1 and the video name, and with a positive step later frames have later `created_at` |
| `Ingest.SnapshotCount` | video_upload/run_video.py:92-94 | at most nine snapshots are kept, and the last one kept is a frame that exists |
| `Ingest.SnapshotIndex` | video_upload/run_video.py:92 | definition: the k-th snapshot is frame 100*k |
| `Ingest.SnapshotSelection` | video_upload/run_video.py:92-94 | frame c is a snapshot exactly when c is a multiple of 100 and c/100 < 9 |
| `Ingest.SnapshotCountStep` | video_upload/run_video.py:92-94 | reading one more frame adds a snapshot exactly when the loop's test holds, and that frame is then the next multiple of 100 |
| `Ingest.SnapshotNameAt` | video_upload/run_video.py:89-93 | the k-th snapshot name is the name of frame 100*k |
| `Ingest.SnapshotNamesSorted` | video_upload/run_video.py:126 | the snapshot names in frame order are strictly increasing in Python's order |
| `Ingest.FlattenSnoc` | video_upload/run_video.py:104 | a flush appends the buffer's documents to what has been inserted |
| `Ingest.SampleMap` | video_upload/run_video.py:92-93 | definition of `image_samples` after c snapshots: the name of frame 100*k mapped to that frame, stored for k = 0, 1, …, c-1 in turn |
| `Ingest.SnapshotNames` | video_upload/run_video.py:126 | definition: the names of the snapshot frames 0, 100, … in frame order |
| `Ingest.SampleMapKeys` | video_upload/run_video.py:92-93 | the keys of `image_samples` are exactly the first c snapshot names |
| `Ingest.SampleMapValues` | video_upload/run_video.py:92-93 | the k-th snapshot name maps to frame 100*k |
| `Ingest.SnapshotNameFresh` | video_upload/run_video.py:93 | a snapshot name already stored differs from the next snapshot's name, so the dict store never overwrites |
| `Ingest.FlushTest` | video_upload/run_video.py:103 | after an append, `len(posts) % 5 == 0` holds exactly when the buffer holds five |
| `Ingest.BufferStep` | video_upload/run_video.py:102-105 | an append, and the flush when it fills the buffer, keep "inserted + buffer = documents so far, all batches full, buffer not full" |
| `Ingest.FinalFlush` | video_upload/run_video.py:112-114 | the final flush of a non-empty buffer leaves ceil(N/5) batches concatenating to the documents, the last of N mod 5 |
| `Ingest.SampleFrame` | video_upload/run_video.py:92-94 | the sampling step keeps `show_cnt` and `image_samples` equal to the snapshots of the frames read so far |
| `Ingest.AppendPost` | video_upload/run_video.py:102-105 | append and flush keep the buffer invariant, flushing exactly when the buffer reaches five |
| `Ingest.IngestFrames` | video_upload/run_video.py:82-114 | the batches concatenate to the documents of all frames in order: ceil(N/5) batches, all of five but a last one of N mod 5; `image_samples` maps the k-th snapshot name to frame 100*k |
| `Layout.GridPosition` | video_upload/run_video.py:127-128 | definition: slot (50 + (k mod 3)*310, 50 + (k / 3)*235) |
| `Layout.GridPositionsDistinct` | video_upload/run_video.py:127-128 | different snapshots get different slots |
| `Layout.GridRowsAndColumns` | video_upload/run_video.py:127-128 | same row exactly when k/3 agrees, same column exactly when k mod 3 agrees |
| `Layout.GridRow` | video_upload/run_video.py:127-128 | row r holds exactly snapshots 3r, 3r+1, 3r+2 |
| `Layout.GridBounds` | video_upload/run_video.py:127-128 | the nine slots have x in {50, 360, 670} and y in {50, 285, 520} |
| `Layout.GridWindowsDisjoint` | video_upload/run_video.py:17-23 | 300x200 windows in different slots do not overlap |
| `Layout.FloorDiv` | video_upload/run_video.py:32-33 | Python 2 integer division rounds toward minus infinity, for either sign of the divisor |
| `Layout.Walk` | video_upload/run_video.py:38-40 | n positions, the i-th at start + i*step |
| `Layout.Trajectory` | video_upload/run_video.py:31-46 | definition: ZeroDivisionError for zero moves; otherwise max(n, 0) moves of floor((end-start)/n) each, then the end itself when hiding |
| `Layout.MoveWindow` | video_upload/run_video.py:31-46 | fails with ZeroDivisionError exactly when asked for zero moves, and otherwise returns the trajectory positions |
| `Layout.TrajectoryAt` | video_upload/run_video.py:38-40 | with n > 0 moves there are n positions (plus the end when hiding), move i at start + i*floor((end-start)/n) |
| `Layout.HideEndsAtEnd` | video_upload/run_video.py:45-46 | when hiding, the last position is exactly the end |
| `Layout.ShowEndsShort` | video_upload/run_video.py:38-40 | when showing, the last position is end - ((end-start) mod n) - floor((end-start)/n) |
| `Layout.ShowStopsShortOfSlot` | video_upload/run_video.py:130 | a snapshot flown from (10,10) in ten moves stops short of its slot in both coordinates |
| `Layout.ShowRestingPositions` | video_upload/run_video.py:130 | the nine flights out come to rest at x in {46, 325, 604} and y in {46, 253, 469} |
| `Layout.RestingWindowsOverlap` | video_upload/run_video.py:130 | at rest, the windows of neighbours in a row are on one line and overlap by 21 pixels |
| `Layout.RestingRowsApart` | video_upload/run_video.py:130 | at rest, windows in different rows are apart vertically |
| `Layout.ShowPath` | video_upload/run_video.py:130 | definition: the path of snapshot k from (10,10) towards slot k in ten moves |
| `Layout.HidePath` | video_upload/run_video.py:140 | definition: the path of snapshot k from slot k towards (10,10) in ten moves, then onto (10,10) |
| `Layout.PathsAreTrajectories` | video_upload/run_video.py:130-140 | the show and hide paths are what move_window computes for those calls, and the hide path ends at (10,10) |
| `Layout.DisplaySnapshots` | video_upload/run_video.py:124-140 | the k-th name is flown from (10,10) to slot k with its own image; then, in reverse order, each is flown from its recorded slot back to (10,10) |
| `Extract.SnapshotNamesDistinct` | video_upload/run_video.py:126 | the snapshot names are pairwise distinct |
| `Extract.SortedSamples` | video_upload/run_video.py:126 | a list is the strictly sorted keys of `image_samples` exactly when it is the snapshot names in frame order |
| `Extract.ShowSnapshots` | video_upload/run_video.py:122-140 | lists the keys sorted and shows snapshot k (frame 100*k) k-th, hiding them in reverse |
| `Extract.ExtractFrames` | video_upload/run_video.py:50-142 | fails exactly when the path does not have one '.', with the unpacking error; otherwise stores every frame in order in batches of five and shows the sorted snapshots out and back |

## Left out

- The OpenCV calls are not modelled: decoding (`VideoCapture`, `read`), resizing, `imshow`, `namedWindow`, `moveWindow`, `waitKey` and `destroyAllWindows`. They are foreign calls. The frames are a given sequence, and move_window returns the positions it would send the window to.
- The MongoDB client is not modelled (`MongoClient`, `remove`, `ensure_index`, `insert_many`). It is a foreign client. Each `insert_many` call is recorded as one returned batch. Lines 56-57 run before the split at line 60, so the collection has already been emptied when the split fails. The model does not capture that.
- `Binary(cPickle.dumps(image))` is left out: it is library serialisation. A document holds the frame itself.
- The float frame rate is not modelled, nor `int(1000000 / fps)` (lines 65-66), because both are floating point. The step is a given whole number of microseconds.
- `strptime` and `datetime` arithmetic (lines 62, 97) are left out. The start and the timestamps are integer microseconds.
- Not modelled, because they are timing and output only: the prints, the wall-clock timing and throughput (lines 67-79, 87, 115-122, 136), and `time.sleep` (line 133).
- Ingest.IngestFrames / Extract.ExtractFrames: the model assumes that OpenCV reports a non-zero frame rate and a frame count of at least the number of frames decoded. Otherwise the script raises before it finishes:
  - `int(1000000 / fps)` at line 66 raises ZeroDivisionError for a zero rate, before any frame is stored;
  - the progress bar built at lines 80-81 with `maxval` set to the reported count (line 74) raises ValueError in `bar.update(cnt)` at line 110 once `cnt` exceeds that count, and in `bar.start()` for a negative count.

  After such an error only the batches flushed so far were inserted, a prefix of the batches the model returns; up to four documents still in `posts` are lost, and the final flush and the display (lines 112-142) never run. The progress bar is library code outside the model, so this failure path is not modelled.
- The throughput print at line 120 divides by the elapsed time. When the elapsed time is zero it raises ZeroDivisionError, and the display at lines 122-140 never runs. The clock is not modelled, so Extract.ExtractFrames always goes on to the display.
- Text.Basename is POSIX `basename`, which splits on '/' only. The Windows `os.path` also splits on '\\' and a drive letter; that is not modelled.
- Paths and names are sequences of characters. Python 2 `str` is a byte string, and byte sequences that are not text cannot be written in the model. For UTF-8 paths, '.', '/' and the string order agree with the byte-level behaviour.
- `retrieve_video`, the playback loop and the argparse dispatcher (lines 145-221) are left out. They are library and command-line glue.
- Extract.ShowSnapshots: it does not sort the keys. It takes the snapshot names in frame order as `sorted(image_samples)`, and Extract.SortedSamples proves that this is the only strictly sorted listing of the keys.
- Layout.DisplaySnapshots: it requires the names to be distinct and to be keys of the samples, as the sorted keys of a dict are. It does not model a missing key, which cannot arise in the script.
- Naming.FrameNamesOrdered: it holds only below index 100000. From there `zfill(5)` no longer pads, and names stop sorting in frame order. Every snapshot (frames 0 to 800) lies below that bound.
