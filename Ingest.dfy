/** The bookkeeping of the ingest loop of extract_frames
    (video_upload/run_video.py lines 82-114): frame timestamps, the document
    built per frame, the buffer `posts` flushed to the collection in groups of
    five, and the choice of snapshot frames. The decoded video is a sequence of
    opaque frames; each `insert_many` call is recorded as one batch. */
module Ingest {
  import opened Text
  import opened Naming

  const SensorId := 1            // every document's sensor_id
  const BatchSize := 5           // posts is flushed when its length is a multiple of 5
  const SnapshotInterval := 100  // SNAPSHOT_INTERVAL
  const NumberOfSnapshots := 9   // NUMBER_OF_SNAPSHOTS

  /** One stored frame; `image` stands for the pickled frame. */
  datatype FrameDoc<Image> = FrameDoc(sensorId: int, videoName: string, createdAt: int, image: Image)

  /** Timestamp of frame cnt in microseconds: the video's start plus cnt
      times the whole number of microseconds per frame. */
  function FrameTimestamp(start: int, step: nat, cnt: nat): int
  {
    start + step * cnt
  }

  /** Consecutive frames are exactly one step apart. */
  lemma TimestampStep(start: int, step: nat, cnt: nat)
    ensures FrameTimestamp(start, step, cnt + 1) - FrameTimestamp(start, step, cnt) == step
  {
    assert step * (cnt + 1) == step * cnt + step;
  }

  /** With a positive step, later frames have strictly later timestamps
      (and with a zero step all frames share one timestamp). */
  lemma {:induction false} TimestampsIncrease(start: int, step: nat, i: nat, j: nat)
    requires i < j
    ensures step > 0 ==> FrameTimestamp(start, step, i) < FrameTimestamp(start, step, j)
    ensures step == 0 ==> FrameTimestamp(start, step, i) == FrameTimestamp(start, step, j)
  {
    TimestampStep(start, step, j - 1);
    if i < j - 1 {
      TimestampsIncrease(start, step, i, j - 1);
    }
  }

  /** The documents of all frames, in frame order. */
  function FrameDocs<Image>(videoName: string, start: int, step: nat, frames: seq<Image>): (docs: seq<FrameDoc<Image>>)
    ensures |docs| == |frames|
    ensures forall i :: 0 <= i < |docs| ==>
              docs[i] == FrameDoc(SensorId, videoName, FrameTimestamp(start, step, i), frames[i])
  {
    if frames == [] then []
    else
      var last := |frames| - 1;
      FrameDocs(videoName, start, step, frames[..last]) + [FrameDoc(SensorId, videoName, FrameTimestamp(start, step, last), frames[last])]
  }

  /** Every document carries sensor 1 and the one video name, and with a
      positive step their timestamps strictly increase in frame order. */
  lemma FrameDocsOrdered<Image>(videoName: string, start: int, step: nat, frames: seq<Image>, i: nat, j: nat)
    requires i < j < |frames|
    ensures var docs := FrameDocs(videoName, start, step, frames);
            docs[i].sensorId == docs[j].sensorId == 1 &&
            docs[i].videoName == docs[j].videoName == videoName &&
            (step > 0 ==> docs[i].createdAt < docs[j].createdAt)
  {
    TimestampsIncrease(start, step, i, j);
  }

  /** The concatenation of the inserted batches, in insertion order. */
  function Flatten<T>(batches: seq<seq<T>>): seq<T>
  {
    if batches == [] then [] else Flatten(batches[..|batches| - 1]) + batches[|batches| - 1]
  }

  /** How many snapshots are taken from the first n frames: one per multiple
      of 100 below n, at most nine. */
  function SnapshotCount(n: nat): (c: nat)
    ensures c <= NumberOfSnapshots
    ensures c > 0 ==> SnapshotIndex(c - 1) < n
  {
    var multiples := (n + SnapshotInterval - 1) / SnapshotInterval;
    if multiples < NumberOfSnapshots then multiples else NumberOfSnapshots
  }

  /** Index of the k-th snapshot frame. */
  function SnapshotIndex(k: nat): nat
  {
    SnapshotInterval * k
  }

  /** Frame c of an n-frame video is kept as a snapshot exactly when c is a
      multiple of 100 and one of the first nine such. */
  lemma SnapshotSelection(n: nat, c: nat)
    requires c < n
    ensures (exists k :: 0 <= k < SnapshotCount(n) && SnapshotIndex(k) == c) <==>
            c % SnapshotInterval == 0 && c / SnapshotInterval < NumberOfSnapshots
  {
    if c % SnapshotInterval == 0 && c / SnapshotInterval < NumberOfSnapshots {
      var k := c / SnapshotInterval;
      assert SnapshotIndex(k) == c;
      assert k < SnapshotCount(n);
    }
  }

  /** The names of the first c snapshot frames, in frame order. */
  function SnapshotNamesUpTo(videoFilename: string, c: nat): (names: seq<string>)
    ensures |names| == c
  {
    if c == 0 then [] else SnapshotNamesUpTo(videoFilename, c - 1) + [FrameName(videoFilename, SnapshotIndex(c - 1))]
  }

  /** The k-th snapshot name is the name of frame 100 * k. */
  lemma {:induction false} SnapshotNameAt(videoFilename: string, c: nat, k: nat)
    requires k < c
    ensures SnapshotNamesUpTo(videoFilename, c)[k] == FrameName(videoFilename, SnapshotIndex(k))
  {
    if k < c - 1 {
      SnapshotNameAt(videoFilename, c - 1, k);
    }
  }

  /** The keys of image_samples after n frames, in frame order. */
  function SnapshotNames(videoFilename: string, n: nat): seq<string>
  {
    SnapshotNamesUpTo(videoFilename, SnapshotCount(n))
  }

  /** The snapshot names are in strictly increasing Python order, so they are
      what sorted() returns for the keys of image_samples. */
  lemma SnapshotNamesSorted(videoFilename: string, n: nat)
    ensures StrictlySorted(SnapshotNames(videoFilename, n))
  {
    var names := SnapshotNames(videoFilename, n);
    forall i, j | 0 <= i < j < |names| ensures LexLess(names[i], names[j]) {
      SnapshotNameAt(videoFilename, SnapshotCount(n), i);
      SnapshotNameAt(videoFilename, SnapshotCount(n), j);
      FrameNamesOrdered(videoFilename, SnapshotIndex(i), SnapshotIndex(j));
    }
  }

  /** Taking one more frame adds a snapshot exactly when the loop's sampling
      test succeeds for that frame. */
  lemma SnapshotCountStep(cnt: nat)
    ensures SnapshotCount(cnt + 1) ==
            SnapshotCount(cnt) + (if cnt % SnapshotInterval == 0 && SnapshotCount(cnt) < NumberOfSnapshots then 1 else 0)
    ensures cnt % SnapshotInterval == 0 && SnapshotCount(cnt) < NumberOfSnapshots ==>
            cnt == SnapshotIndex(SnapshotCount(cnt))
  {
  }

  /** Flushing the buffer moves its documents into the batches. */
  lemma FlattenSnoc<T>(batches: seq<seq<T>>, b: seq<T>)
    ensures Flatten(batches + [b]) == Flatten(batches) + b
  {
    assert (batches + [b])[..|batches|] == batches;
  }

  /** One more element of a sequence extends its prefix by that element. */
  lemma PrefixSnoc<T>(s: seq<T>, n: nat)
    requires n < |s|
    ensures s[..n + 1] == s[..n] + [s[n]]
  {
  }

  /** image_samples once the first c snapshots are taken: the name of frame
      100 * k mapped to that frame, for each k < c. */
  function SampleMap<Image>(videoFilename: string, frames: seq<Image>, c: nat): map<string, Image>
    requires c == 0 || SnapshotIndex(c - 1) < |frames|
  {
    if c == 0 then map[]
    else SampleMap(videoFilename, frames, c - 1)[FrameName(videoFilename, SnapshotIndex(c - 1)) := frames[SnapshotIndex(c - 1)]]
  }

  /** The keys of the sample map are exactly the first c snapshot names. */
  lemma {:induction false} SampleMapKeys<Image>(videoFilename: string, frames: seq<Image>, c: nat)
    requires c == 0 || SnapshotIndex(c - 1) < |frames|
    ensures forall x :: x in SampleMap(videoFilename, frames, c) <==> x in SnapshotNamesUpTo(videoFilename, c)
  {
    if c > 0 {
      SampleMapKeys(videoFilename, frames, c - 1);
      var before := SnapshotNamesUpTo(videoFilename, c - 1);
      var name := FrameName(videoFilename, SnapshotIndex(c - 1));
      var m := SampleMap(videoFilename, frames, c - 1);
      assert SnapshotNamesUpTo(videoFilename, c) == before + [name];
      assert SampleMap(videoFilename, frames, c) == m[name := frames[SnapshotIndex(c - 1)]];
      forall x ensures x in m[name := frames[SnapshotIndex(c - 1)]] <==> x in before + [name] {
        assert x in before + [name] <==> x in before || x == name;
      }
    }
  }

  /** A snapshot name taken earlier differs from the name of the next
      snapshot frame. */
  lemma SnapshotNameFresh(videoFilename: string, c: nat, k: nat)
    requires k < c
    ensures SnapshotNamesUpTo(videoFilename, c)[k] != FrameName(videoFilename, SnapshotIndex(c))
  {
    SnapshotNameAt(videoFilename, c, k);
    FrameNameDistinct(videoFilename, SnapshotIndex(k), SnapshotIndex(c));
  }

  /** Each snapshot name in the sample map holds its own frame, 100 * k. */
  lemma {:induction false} SampleMapValues<Image>(videoFilename: string, frames: seq<Image>, c: nat, k: nat)
    requires c == 0 || SnapshotIndex(c - 1) < |frames|
    requires k < c
    ensures SnapshotIndex(k) < |frames|
    ensures SnapshotNamesUpTo(videoFilename, c)[k] in SampleMap(videoFilename, frames, c)
    ensures SampleMap(videoFilename, frames, c)[SnapshotNamesUpTo(videoFilename, c)[k]] == frames[SnapshotIndex(k)]
  {
    var before := SnapshotNamesUpTo(videoFilename, c - 1);
    var name := FrameName(videoFilename, SnapshotIndex(c - 1));
    assert SnapshotNamesUpTo(videoFilename, c) == before + [name];
    if k < c - 1 {
      SampleMapValues(videoFilename, frames, c - 1, k);
      SnapshotNameFresh(videoFilename, c - 1, k);
      assert SnapshotNamesUpTo(videoFilename, c)[k] == before[k];
    }
  }

  /** After an append the buffer holds between one and five documents, so
      the test `len(posts) % 5 == 0` holds exactly when it is full. */
  lemma FlushTest(len: nat)
    requires 1 <= len <= BatchSize
    ensures len % BatchSize == 0 <==> len == BatchSize
  {
  }

  /** The state of the buffer after some documents: the flushed batches
      followed by the buffer are those documents, every flushed batch is full
      and the buffer is not. */
  ghost predicate Buffered<T>(batches: seq<seq<T>>, posts: seq<T>, docs: seq<T>)
  {
    Flatten(batches) + posts == docs &&
    |docs| == BatchSize * |batches| + |posts| && |posts| < BatchSize &&
    forall i :: 0 <= i < |batches| ==> |batches[i]| == BatchSize
  }

  /** posts.append(post) followed by the flush test keeps the buffer state. */
  lemma BufferStep<T>(batches: seq<seq<T>>, posts: seq<T>, docs: seq<T>, post: T)
    requires Buffered(batches, posts, docs)
    ensures var appended := posts + [post];
            if |appended| % BatchSize == 0 then Buffered(batches + [appended], [], docs + [post])
            else Buffered(batches, appended, docs + [post])
  {
    var appended := posts + [post];
    FlushTest(|appended|);
    FlattenSnoc(batches, appended);
  }

  /** How the documents went to the collection: the batches, concatenated in
      order, are exactly the documents; there are ceil(N/5) of them, none
      empty; the flushes inside the loop carry five documents each and the
      flush after it the remaining N mod 5, when that is not zero. */
  ghost predicate Batched<T>(batches: seq<seq<T>>, docs: seq<T>)
  {
    var n := |docs|;
    Flatten(batches) == docs &&
    |batches| == (n + BatchSize - 1) / BatchSize &&
    (forall i :: 0 <= i < |batches| ==> 1 <= |batches[i]| <= BatchSize) &&
    (forall i :: 0 <= i < n / BatchSize ==> |batches[i]| == BatchSize) &&
    |batches| == n / BatchSize + (if n % BatchSize == 0 then 0 else 1) &&
    (n % BatchSize != 0 ==> |batches[|batches| - 1]| == n % BatchSize)
  }

  /** Lines 112-114: flushing a non-empty buffer after the loop leaves the
      documents batched as the predicate above says. */
  lemma FinalFlush<T>(batches: seq<seq<T>>, posts: seq<T>, docs: seq<T>)
    requires Buffered(batches, posts, docs)
    ensures Batched(if posts != [] then batches + [posts] else batches, docs)
  {
    var n := |docs|;
    assert |batches| == n / BatchSize && |posts| == n % BatchSize;
    if posts != [] {
      FlattenSnoc(batches, posts);
    }
  }

  /** Lines 92-94: keep frame cnt as a snapshot when cnt is a multiple of
      100 and fewer than nine are kept. Keeps image_samples and show_cnt in
      step with the frames read so far. */
  method SampleFrame<Image>(videoFilename: string, frames: seq<Image>, cnt: nat,
                            samples: map<string, Image>, showCnt: nat)
    returns (samples': map<string, Image>, showCnt': nat)
    requires cnt < |frames|
    requires showCnt == SnapshotCount(cnt) && samples == SampleMap(videoFilename, frames, showCnt)
    ensures showCnt' == SnapshotCount(cnt + 1) && samples' == SampleMap(videoFilename, frames, showCnt')
  {
    var frameName := FrameName(videoFilename, cnt);
    SnapshotCountStep(cnt);
    if cnt % SnapshotInterval == 0 && showCnt < NumberOfSnapshots {
      assert cnt == SnapshotIndex(showCnt);
      samples' := samples[frameName := frames[cnt]];
      showCnt' := showCnt + 1;
    } else {
      samples', showCnt' := samples, showCnt;
    }
  }

  /** Lines 102-105: append the document and flush the buffer when its
      length reaches a multiple of five. */
  method AppendPost<T>(batches: seq<seq<T>>, posts: seq<T>, ghost docs: seq<T>, post: T)
    returns (batches': seq<seq<T>>, posts': seq<T>)
    requires Buffered(batches, posts, docs)
    ensures Buffered(batches', posts', docs + [post])
    ensures |posts| + 1 == BatchSize ==> batches' == batches + [posts + [post]] && posts' == []
    ensures |posts| + 1 < BatchSize ==> batches' == batches && posts' == posts + [post]
  {
    BufferStep(batches, posts, docs, post);
    batches', posts' := batches, posts + [post];
    if |posts'| % BatchSize == 0 {
      batches' := batches' + [posts'];
      posts' := [];
    }
  }

  /** The ingest loop and the flush after it. Returns the batches handed to
      insert_many, in order, and image_samples. */
  method IngestFrames<Image>(videoFilename: string, videoFileExt: string, start: int, step: nat, frames: seq<Image>)
    returns (batches: seq<seq<FrameDoc<Image>>>, samples: map<string, Image>)
    // nothing dropped, duplicated or reordered; ceil(N/5) inserts of 5, the last of N mod 5
    ensures Batched(batches, FrameDocs(VideoName(videoFilename, videoFileExt), start, step, frames))
    // the snapshots kept: image_samples maps the k-th snapshot name to frame 100 * k
    ensures samples == SampleMap(videoFilename, frames, SnapshotCount(|frames|))
  {
    var videoName := VideoName(videoFilename, videoFileExt);
    var cnt := 0;
    var showCnt := 0;
    samples := map[];
    var posts: seq<FrameDoc<Image>> := [];
    batches := [];
    ghost var docs := FrameDocs(videoName, start, step, frames);
    while cnt < |frames|
      invariant 0 <= cnt <= |frames|
      invariant Buffered(batches, posts, docs[..cnt])
      invariant showCnt == SnapshotCount(cnt)
      invariant samples == SampleMap(videoFilename, frames, showCnt)
    {
      samples, showCnt := SampleFrame(videoFilename, frames, cnt, samples, showCnt);
      var post := FrameDoc(SensorId, videoName, FrameTimestamp(start, step, cnt), frames[cnt]);
      assert docs[cnt] == post;
      PrefixSnoc(docs, cnt);
      batches, posts := AppendPost(batches, posts, docs[..cnt], post);
      cnt := cnt + 1;
    }
    assert docs[..cnt] == docs;
    FinalFlush(batches, posts, docs);
    if |posts| != 0 {
      batches := batches + [posts];
      posts := [];
    }
  }
}
