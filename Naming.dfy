/** The names extract_frames derives from its input path: the video's base name
    and extension (video_upload/run_video.py lines 60-61), the stored
    video_name (line 101) and the per-frame name (line 89). */
module Naming {
  import opened Text

  /** The ValueError that unpacking `a, b = path.split(".")` raises. */
  datatype UnpackError =
    | NeedMoreValues  // no '.' in the path: one piece
    | TooManyValues   // two or more '.': three pieces or more

  /** `full, ext = path.split(".")` then `os.path.basename(full)`. */
  function SplitVideoPath(videoFile: string): (r: Result<(string, string), UnpackError>)
    ensures r.Ok? <==> Count(videoFile, '.') == 1
    ensures r == Err(NeedMoreValues) <==> Count(videoFile, '.') == 0
    ensures r.Ok? ==> '/' !in r.value.0 && '.' !in r.value.0 && '.' !in r.value.1
  {
    var parts := Split(videoFile, '.');
    if |parts| < 2 then Err(NeedMoreValues)
    else if |parts| > 2 then Err(TooManyValues)
    else Ok((Basename(parts[0]), parts[1]))
  }

  /** The stored video_name: base name, '.', extension. */
  function VideoName(videoFilename: string, videoFileExt: string): string
  {
    videoFilename + "." + videoFileExt
  }

  /** On success the stored video name ends the path and is either the whole
      path or what follows some '/'. The extension keeps any '/' after the
      dot ("x/a.b/c" gives "a.b/c"), so the name is the path's last component
      exactly when the extension has no '/'. */
  lemma VideoNameEndsPath(videoFile: string)
    requires SplitVideoPath(videoFile).Ok?
    ensures var (base, ext) := SplitVideoPath(videoFile).value;
            var name := VideoName(base, ext);
            |name| <= |videoFile| && videoFile[|videoFile| - |name|..] == name &&
            (|name| == |videoFile| || videoFile[|videoFile| - |name| - 1] == '/')
    ensures var (base, ext) := SplitVideoPath(videoFile).value;
            '/' in VideoName(base, ext) <==> '/' in ext
  {
    var parts := Split(videoFile, '.');
    assert |parts| == 2;
    JoinSplit(videoFile, '.');
    assert Join(parts[1..], '.') == parts[1];
    assert videoFile == parts[0] + ['.'] + parts[1];
    var base := Basename(parts[0]);
    var dir := parts[0][..|parts[0]| - |base|];
    assert parts[0] == dir + base;
    var name := base + "." + parts[1];
    assert videoFile == dir + name;
    assert videoFile[|dir|..] == name;
    if dir != [] {
      assert videoFile[|dir| - 1] == dir[|dir| - 1] == parts[0][|parts[0]| - |base| - 1];
    }
    assert forall c :: c in name <==> c in base || c == '.' || c in parts[1];
  }

  /** `str(cnt).zfill(5)`. */
  function PaddedIndex(cnt: nat): string
  {
    ZFill(Decimal(cnt), 5)
  }

  /** The padded index is a digit string of at least five characters that
      denotes cnt, and of exactly five when cnt < 100000. */
  lemma PaddedIndexValue(cnt: nat)
    ensures AllDigits(PaddedIndex(cnt)) && Value(PaddedIndex(cnt)) == cnt
    ensures |PaddedIndex(cnt)| >= 5
    ensures cnt < 100000 ==> |PaddedIndex(cnt)| == 5
  {
    DecimalValue(cnt);
    ZFillValue(Decimal(cnt), 5);
    if cnt < 100000 {
      assert Pow10(5) == 100000 by {
        assert Pow10(1) == 10 && Pow10(2) == 100 && Pow10(3) == 1000 && Pow10(4) == 10000;
      }
      DecimalLength(cnt, 5);
    }
  }

  /** The name of frame cnt (line 89). */
  function FrameName(videoFilename: string, cnt: nat): string
  {
    videoFilename + "_" + PaddedIndex(cnt) + ".png"
  }

  /** Distinct frames get distinct names. */
  lemma FrameNameInjective(videoFilename: string, i: nat, j: nat)
    requires FrameName(videoFilename, i) == FrameName(videoFilename, j)
    ensures i == j
  {
    var p := videoFilename + "_";
    var zi, zj := PaddedIndex(i), PaddedIndex(j);
    var ni := p + zi + ".png";
    assert |zi| == |zj|;
    assert ni[|p|..|p| + |zi|] == zi;
    assert (p + zj + ".png")[|p|..|p| + |zj|] == zj;
    PaddedIndexValue(i);
    PaddedIndexValue(j);
  }

  /** Frames with different indices have different names. */
  lemma FrameNameDistinct(videoFilename: string, i: nat, j: nat)
    requires i != j
    ensures FrameName(videoFilename, i) != FrameName(videoFilename, j)
  {
    if FrameName(videoFilename, i) == FrameName(videoFilename, j) {
      FrameNameInjective(videoFilename, i, j);
    }
  }

  /** Below 100000, Python's order on frame names is the order of the frame
      indices; this is what makes sorted() list snapshots in frame order. */
  lemma FrameNamesOrdered(videoFilename: string, i: nat, j: nat)
    requires i < j < 100000
    ensures LexLess(FrameName(videoFilename, i), FrameName(videoFilename, j))
  {
    var p := videoFilename + "_";
    var zi, zj := PaddedIndex(i), PaddedIndex(j);
    PaddedIndexValue(i);
    PaddedIndexValue(j);
    LexLessDigits(zi, zj);
    LexLessCommonPrefix(p, zi, zj);
    LexLessExtend(p + zi, p + zj, ".png", ".png");
  }
}
