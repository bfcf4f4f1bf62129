/** extract_frames (video_upload/run_video.py lines 50-142) with the
    database, the decoder and the windows replaced by their inputs and
    outputs: split the path, run the ingest loop, then show the snapshots in
    sorted order and hide them in reverse. */
module Extract {
  import opened Text
  import opened Naming
  import opened Ingest
  import opened Layout

  /** What one run hands to the outside world. */
  datatype Extraction<Image> = Extraction(
    batches: seq<seq<FrameDoc<Image>>>,  // the insert_many calls, in order
    samples: map<string, Image>,         // image_samples
    order: seq<string>,                  // sorted(image_samples)
    shown: seq<Flight<Image>>,           // the windows flown out, in order
    hidden: seq<Flight<Image>>)          // the windows flown back, in order

  /** The snapshot names are pairwise distinct. */
  lemma SnapshotNamesDistinct(videoFilename: string, n: nat)
    ensures var names := SnapshotNames(videoFilename, n);
            forall i, j :: 0 <= i < j < |names| ==> names[i] != names[j]
  {
    var names := SnapshotNames(videoFilename, n);
    forall i, j | 0 <= i < j < |names| ensures names[i] != names[j] {
      SnapshotNameAt(videoFilename, SnapshotCount(n), i);
      SnapshotNameAt(videoFilename, SnapshotCount(n), j);
      FrameNameDistinct(videoFilename, SnapshotIndex(i), SnapshotIndex(j));
    }
  }

  /** sorted(image_samples) after the loop: a list is the keys of
      image_samples in strictly increasing Python order exactly when it is
      the snapshot names in frame order. */
  lemma SortedSamples<Image>(videoFilename: string, frames: seq<Image>, s: seq<string>)
    ensures var samples := SampleMap(videoFilename, frames, SnapshotCount(|frames|));
            StrictlySorted(s) && (forall x :: x in s <==> x in samples) <==>
            s == SnapshotNames(videoFilename, |frames|)
  {
    var names := SnapshotNames(videoFilename, |frames|);
    SnapshotNamesSorted(videoFilename, |frames|);
    SampleMapKeys(videoFilename, frames, SnapshotCount(|frames|));
    var samples := SampleMap(videoFilename, frames, SnapshotCount(|frames|));
    if StrictlySorted(s) && (forall x :: x in s <==> x in samples) {
      SortedUnique(s, names);
    }
  }

  /** The flights of the snapshots of a video whose frames were named after
      videoFilename: snapshot k is frame 100 * k, shown k-th and hidden
      (c - 1 - k)-th, where c is the number of snapshots. */
  ghost predicate Displayed<Image>(videoFilename: string, frames: seq<Image>, shown: seq<Flight<Image>>, hidden: seq<Flight<Image>>)
  {
    var c := SnapshotCount(|frames|);
    |shown| == |hidden| == c &&
    (forall k :: 0 <= k < c ==>
       SnapshotIndex(k) < |frames| &&
       shown[k] == Flight(FrameName(videoFilename, SnapshotIndex(k)), frames[SnapshotIndex(k)], ShowPath(k))) &&
    (forall k :: 0 <= k < c ==>
       var j := c - 1 - k;
       SnapshotIndex(j) < |frames| &&
       hidden[k] == Flight(FrameName(videoFilename, SnapshotIndex(j)), frames[SnapshotIndex(j)], HidePath(j)))
  }

  /** Lines 122-140 after the ingest loop: list the keys of image_samples in
      sorted order and fly each snapshot out and back. */
  method ShowSnapshots<Image>(videoFilename: string, frames: seq<Image>, samples: map<string, Image>)
    returns (order: seq<string>, shown: seq<Flight<Image>>, hidden: seq<Flight<Image>>)
    requires samples == SampleMap(videoFilename, frames, SnapshotCount(|frames|))
    ensures StrictlySorted(order) && (forall x :: x in order <==> x in samples)
    ensures order == SnapshotNames(videoFilename, |frames|)
    ensures Displayed(videoFilename, frames, shown, hidden)
  {
    var c := SnapshotCount(|frames|);
    order := SnapshotNames(videoFilename, |frames|);
    SortedSamples(videoFilename, frames, order);
    SnapshotNamesDistinct(videoFilename, |frames|);
    forall k | 0 <= k < c
      ensures SnapshotIndex(k) < |frames|
      ensures order[k] == FrameName(videoFilename, SnapshotIndex(k))
      ensures order[k] in samples && samples[order[k]] == frames[SnapshotIndex(k)]
    {
      SnapshotNameAt(videoFilename, c, k);
      SampleMapValues(videoFilename, frames, c, k);
    }
    shown, hidden := DisplaySnapshots(order, samples);
  }

  /** The whole of extract_frames. The step is the whole number of
      microseconds per frame and start the video's start time in
      microseconds; frames are the decoded frames in order. */
  method ExtractFrames<Image>(videoFile: string, start: int, step: nat, frames: seq<Image>)
    returns (r: Result<Extraction<Image>, UnpackError>)
    // the unpacking of line 60 fails unless the path holds exactly one '.'
    ensures r.Err? <==> Count(videoFile, '.') != 1
    ensures r.Err? ==> SplitVideoPath(videoFile) == Err(r.error)
    // every frame stored once, in order, in batches of five; the snapshots
    // sorted, frame 100 * k shown k-th and all hidden in reverse order
    ensures r.Ok? ==>
              var (base, ext) := SplitVideoPath(videoFile).value;
              Batched(r.value.batches, FrameDocs(VideoName(base, ext), start, step, frames)) &&
              r.value.samples == SampleMap(base, frames, SnapshotCount(|frames|)) &&
              r.value.order == SnapshotNames(base, |frames|) &&
              Displayed(base, frames, r.value.shown, r.value.hidden)
  {
    var split := SplitVideoPath(videoFile);
    if split.Err? {
      return Err(split.error);
    }
    var (videoFilename, videoFileExt) := split.value;
    var batches, samples := IngestFrames(videoFilename, videoFileExt, start, step, frames);
    var order, shown, hidden := ShowSnapshots(videoFilename, frames, samples);
    return Ok(Extraction(batches, samples, order, shown, hidden));
  }
}
