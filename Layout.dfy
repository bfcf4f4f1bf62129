/** The snapshot layout of extract_frames (video_upload/run_video.py): the
    grid slot of the k-th snapshot (lines 127-128), the coordinates
    move_window sends a window through (lines 31-46), and the two loops that
    fly the snapshots to their slots and back (lines 124-140). Only the
    coordinates are modelled; the window calls themselves are not. */
module Layout {
  import opened Text

  const DisplayWidth := 300    // SNAPSHOT_DISPLAY_WIDTH
  const DisplayHeight := 200   // SNAPSHOT_DISPLAY_HEIGHT
  const XMovement := 310       // X_MOVEMENT
  const YMovement := 235       // Y_MOVEMENT
  const NumMoveIntervals := 10 // NUM_MOVE_INTERVALS
  const SnapshotsInARow := 3   // NUM_SNAPSHOTS_IN_A_ROW
  const Margin := 50           // offset of the grid's first slot
  const Home := 10             // the corner windows fly out of and back to

  /** A window position on the screen. */
  datatype Pos = Pos(x: int, y: int)

  /** Slot of the k-th snapshot shown: three to a row (lines 127-128). */
  function GridPosition(k: nat): Pos
  {
    Pos(Margin + (k % SnapshotsInARow) * XMovement, Margin + (k / SnapshotsInARow) * YMovement)
  }

  /** Different snapshots get different slots. */
  lemma GridPositionsDistinct(i: nat, j: nat)
    requires i != j
    ensures GridPosition(i) != GridPosition(j)
  {
    assert i == SnapshotsInARow * (i / SnapshotsInARow) + i % SnapshotsInARow;
    assert j == SnapshotsInARow * (j / SnapshotsInARow) + j % SnapshotsInARow;
  }

  /** Two snapshots share a row exactly when they are in the same group of
      three, and a column exactly when they have the same remainder. */
  lemma GridRowsAndColumns(i: nat, j: nat)
    ensures GridPosition(i).y == GridPosition(j).y <==> i / SnapshotsInARow == j / SnapshotsInARow
    ensures GridPosition(i).x == GridPosition(j).x <==> i % SnapshotsInARow == j % SnapshotsInARow
  {
  }

  /** Row r holds exactly snapshots 3r, 3r + 1 and 3r + 2. */
  lemma GridRow(k: nat, r: nat)
    ensures GridPosition(k).y == Margin + r * YMovement <==> SnapshotsInARow * r <= k < SnapshotsInARow * r + SnapshotsInARow
  {
  }

  /** The nine slots of the snapshots shown lie in a 3 by 3 grid:
      x in {50, 360, 670} and y in {50, 285, 520}. */
  lemma GridBounds(k: nat)
    requires k < 9
    ensures GridPosition(k).x in {50, 360, 670} && GridPosition(k).y in {50, 285, 520}
  {
  }

  /** Two resized snapshots (300 by 200) placed in different slots do not
      overlap: the slots are 310 apart horizontally and 235 vertically. */
  lemma GridWindowsDisjoint(i: nat, j: nat)
    requires i != j
    ensures var p, q := GridPosition(i), GridPosition(j);
            p.x + DisplayWidth <= q.x || q.x + DisplayWidth <= p.x ||
            p.y + DisplayHeight <= q.y || q.y + DisplayHeight <= p.y
  {
    GridPositionsDistinct(i, j);
    GridRowsAndColumns(i, j);
  }

  /** Python 2's `/` on ints: division rounding toward minus infinity. */
  function FloorDiv(a: int, b: int): (q: int)
    requires b != 0
    ensures b > 0 ==> b * q <= a < b * q + b
    ensures b < 0 ==> b * q + b < a <= b * q
  {
    if b > 0 then a / b
    else
      var q := (-a) / (-b);
      assert (-b) * q <= -a < (-b) * q + (-b);
      assert (-b) * q == -(b * q);
      q
  }

  /** move_window's ZeroDivisionError, raised when it is asked for zero moves. */
  datatype MoveError = ZeroDivision

  /** The first n positions of a walk from (sx, sy) by (dx, dy) per move. */
  function Walk(sx: int, sy: int, dx: int, dy: int, n: nat): (w: seq<Pos>)
    ensures |w| == n
    ensures forall i :: 0 <= i < n ==> w[i] == Pos(sx + i * dx, sy + i * dy)
  {
    if n == 0 then [] else Walk(sx, sy, dx, dy, n - 1) + [Pos(sx + (n - 1) * dx, sy + (n - 1) * dy)]
  }

  /** The positions move_window sends a window to, in order: one per move of
      the whole-number step, then (when the image is being hidden) the end
      itself. A non-positive number of moves makes range() empty. */
  function Trajectory(sx: int, sy: int, ex: int, ey: int, n: int, show: bool): Result<seq<Pos>, MoveError>
  {
    if n == 0 then Err(ZeroDivision)
    else
      var moves := Walk(sx, sy, FloorDiv(ex - sx, n), FloorDiv(ey - sy, n), if n > 0 then n else 0);
      Ok(if show then moves else moves + [Pos(ex, ey)])
  }

  /** Lines 31-46: compute both steps, move the window n times, and when the
      image is being hidden jump to the end. Returns the positions visited. */
  method MoveWindow(sx: int, sy: int, ex: int, ey: int, n: int, show: bool)
    returns (r: Result<seq<Pos>, MoveError>)
    ensures r == Trajectory(sx, sy, ex, ey, n, show)
    ensures r.Err? <==> n == 0
  {
    if n == 0 {
      return Err(ZeroDivision);
    }
    var xStep := FloorDiv(ex - sx, n);
    var yStep := FloorDiv(ey - sy, n);
    var moves: seq<Pos> := [];
    var i := 0;
    while i < n
      invariant n > 0 ==> 0 <= i <= n
      invariant n < 0 ==> i == 0
      invariant moves == Walk(sx, sy, xStep, yStep, i)
    {
      moves := moves + [Pos(sx + i * xStep, sy + i * yStep)];
      i := i + 1;
    }
    if !show {
      moves := moves + [Pos(ex, ey)];
    }
    return Ok(moves);
  }

  /** With n > 0 moves, move i goes to start + i * floor((end - start) / n). */
  lemma TrajectoryAt(sx: int, sy: int, ex: int, ey: int, n: int, show: bool, i: int)
    requires 0 <= i < n
    ensures var r := Trajectory(sx, sy, ex, ey, n, show);
            r.Ok? && |r.value| == n + (if show then 0 else 1) &&
            r.value[i] == Pos(sx + i * FloorDiv(ex - sx, n), sy + i * FloorDiv(ey - sy, n))
  {
  }

  /** Hiding ends exactly on the end position, whatever the number of moves. */
  lemma HideEndsAtEnd(sx: int, sy: int, ex: int, ey: int, n: int)
    requires n != 0
    ensures var r := Trajectory(sx, sy, ex, ey, n, false);
            r.Ok? && |r.value| >= 1 && r.value[|r.value| - 1] == Pos(ex, ey)
  {
  }

  /** Showing ends on move n - 1, which falls short of the end by the
      remainder of the division plus one step: it reaches the end only when
      both are zero. */
  lemma ShowEndsShort(sx: int, sy: int, ex: int, ey: int, n: int)
    requires n > 0
    ensures var r := Trajectory(sx, sy, ex, ey, n, true);
            r.Ok? && |r.value| == n &&
            r.value[n - 1].x == ex - (ex - sx) % n - (ex - sx) / n &&
            r.value[n - 1].y == ey - (ey - sy) % n - (ey - sy) / n
  {
    var dx, dy := FloorDiv(ex - sx, n), FloorDiv(ey - sy, n);
    assert dx == (ex - sx) / n && dy == (ey - sy) / n;
    assert ex - sx == n * dx + (ex - sx) % n;
    assert ey - sy == n * dy + (ey - sy) % n;
    assert (n - 1) * dx == n * dx - dx;
    assert (n - 1) * dy == n * dy - dy;
  }

  /** A snapshot flown out of the home corner with ten moves stops short of
      its slot in both directions. */
  lemma ShowStopsShortOfSlot(k: nat)
    ensures var p := GridPosition(k);
            var r := Trajectory(Home, Home, p.x, p.y, NumMoveIntervals, true);
            r.Ok? && r.value[NumMoveIntervals - 1].x < p.x && r.value[NumMoveIntervals - 1].y < p.y
  {
    var p := GridPosition(k);
    ShowEndsShort(Home, Home, p.x, p.y, NumMoveIntervals);
  }

  /** Where the shown snapshots come to rest: the last move of each flight
      out, short of the slot, at x in {46, 325, 604} and y in {46, 253, 469}. */
  lemma ShowRestingPositions(k: nat)
    requires k < 9
    ensures var rest := ShowPath(k)[NumMoveIntervals - 1];
            rest.x in {46, 325, 604} && rest.y in {46, 253, 469}
  {
  }

  /** At rest, the 300-wide windows of neighbours in a row overlap by 21
      pixels (the slots themselves are disjoint; rows do not overlap). */
  lemma RestingWindowsOverlap(k: nat)
    requires k < 9 && k % SnapshotsInARow != SnapshotsInARow - 1
    ensures var p, q := ShowPath(k)[NumMoveIntervals - 1], ShowPath(k + 1)[NumMoveIntervals - 1];
            p.y == q.y && p.x < q.x && p.x + DisplayWidth == q.x + 21
  {
    var col := k % SnapshotsInARow;
    assert (k + 1) % SnapshotsInARow == col + 1 && (k + 1) / SnapshotsInARow == k / SnapshotsInARow;
    assert GridPosition(k).x == Margin + col * XMovement;
    assert GridPosition(k + 1).x == GridPosition(k).x + XMovement;
    assert col == 0 || col == 1;
  }

  /** At rest, windows in different rows are apart vertically. */
  lemma RestingRowsApart(i: nat, j: nat)
    requires i < 9 && j < 9 && i / SnapshotsInARow < j / SnapshotsInARow
    ensures ShowPath(i)[NumMoveIntervals - 1].y + DisplayHeight < ShowPath(j)[NumMoveIntervals - 1].y
  {
  }

  /** One window's flight: the snapshot's name, the image shown in it and
      the positions it is moved through. */
  datatype Flight<Image> = Flight(name: string, image: Image, path: seq<Pos>)

  /** The path of the k-th snapshot shown: from the home corner to its slot,
      in ten moves, with the image shown (line 130). */
  function ShowPath(k: nat): seq<Pos>
  {
    var p := GridPosition(k);
    Walk(Home, Home, FloorDiv(p.x - Home, NumMoveIntervals), FloorDiv(p.y - Home, NumMoveIntervals), NumMoveIntervals)
  }

  /** The path of the k-th snapshot when hidden: from its slot back to the
      home corner in ten moves, then onto the corner itself (line 140). */
  function HidePath(k: nat): seq<Pos>
  {
    var p := GridPosition(k);
    Walk(p.x, p.y, FloorDiv(Home - p.x, NumMoveIntervals), FloorDiv(Home - p.y, NumMoveIntervals), NumMoveIntervals) + [Pos(Home, Home)]
  }

  /** The two paths are what move_window computes for those arguments; the
      hide path ends on the home corner. */
  lemma PathsAreTrajectories(k: nat)
    ensures var p := GridPosition(k);
            Trajectory(Home, Home, p.x, p.y, NumMoveIntervals, true) == Ok(ShowPath(k)) &&
            Trajectory(p.x, p.y, Home, Home, NumMoveIntervals, false) == Ok(HidePath(k))
    ensures HidePath(k)[|HidePath(k)| - 1] == Pos(Home, Home)
  {
  }

  /** Lines 124-140: fly each snapshot, in the given order, from the home
      corner to the next grid slot, recording that slot under its name; then,
      in reverse order, fly each back from its recorded slot to the corner.
      The order lists distinct names, as the sorted keys of a dict do. */
  method DisplaySnapshots<Image>(order: seq<string>, samples: map<string, Image>)
    returns (shown: seq<Flight<Image>>, hidden: seq<Flight<Image>>)
    requires forall i :: 0 <= i < |order| ==> order[i] in samples
    requires forall i, j :: 0 <= i < j < |order| ==> order[i] != order[j]
    ensures |shown| == |order| && |hidden| == |order|
    ensures forall k :: 0 <= k < |order| ==> shown[k] == Flight(order[k], samples[order[k]], ShowPath(k))
    ensures forall k :: 0 <= k < |order| ==>
              var j := |order| - 1 - k;
              hidden[k] == Flight(order[j], samples[order[j]], HidePath(j))
  {
    var showCnt := 0;
    var windowPositions: map<string, Pos> := map[];
    shown := [];
    while showCnt < |order|
      invariant 0 <= showCnt <= |order|
      invariant |shown| == showCnt
      invariant forall k :: 0 <= k < showCnt ==> shown[k] == Flight(order[k], samples[order[k]], ShowPath(k))
      invariant forall k :: 0 <= k < showCnt ==> order[k] in windowPositions && windowPositions[order[k]] == GridPosition(k)
    {
      var frameName := order[showCnt];
      var slot := GridPosition(showCnt);
      PathsAreTrajectories(showCnt);
      var path := MoveWindow(Home, Home, slot.x, slot.y, NumMoveIntervals, true);
      windowPositions := windowPositions[frameName := slot];
      shown := shown + [Flight(frameName, samples[frameName], path.value)];
      showCnt := showCnt + 1;
    }
    hidden := [];
    var i := 0;
    while i < |order|
      invariant 0 <= i <= |order|
      invariant |hidden| == i
      invariant forall k :: 0 <= k < i ==>
                  var j := |order| - 1 - k;
                  hidden[k] == Flight(order[j], samples[order[j]], HidePath(j))
    {
      var j := |order| - 1 - i;
      var frameName := order[j];
      var slot := windowPositions[frameName];
      PathsAreTrajectories(j);
      var path := MoveWindow(slot.x, slot.y, Home, Home, NumMoveIntervals, false);
      hidden := hidden + [Flight(frameName, samples[frameName], path.value)];
      i := i + 1;
    }
  }
}
