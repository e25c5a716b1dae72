/** The free-draw stroke recorder as a state machine: each pointer or button
    event maps the recorder's state to the next one. The class Board.Board
    holds this state in mutable fields and is proved against these
    functions. */
module Strokes {
  import opened Wrappers
  import opened Modes
  import opened Geometry

  /** Minimum interval, in milliseconds, between two accepted points. */
  const DrawThrottleMs: int := 8

  /** A free-draw line: stage points flattened as [x0, y0, x1, y1, ...]. */
  datatype Line = Line(points: seq<real>, stroke: string, strokeWidth: int)

  /** The recorder's refs and the interaction mode. */
  datatype Recorder = Recorder(lines: seq<Line>, currentLineIndex: int, isDrawing: bool, lastDraw: int, mode: Mode)

  /** What a pointer-move did. Faulted is the case where the source reads a
      line past the end of the list and throws; the state it leaves is the
      same as a plain return, with lastDraw already advanced. */
  datatype MoveOutcome = Ignored | Throttled | NoPointer | NoOpenLine | Faulted | Appended

  datatype MoveResult = MoveResult(next: Recorder, outcome: MoveOutcome)

  function Initial(): Recorder {
    Recorder([], -1, false, 0, Play)
  }

  /** Every line holds whole (x, y) pairs, at least one, in black at width
      3, and the current index is a line index or -1. */
  predicate WellFormed(s: Recorder) {
    && s.currentLineIndex >= -1
    && forall i :: 0 <= i < |s.lines| ==>
      && |s.lines[i].points| % 2 == 0 && |s.lines[i].points| >= 2
      && s.lines[i].stroke == "#000" && s.lines[i].strokeWidth == 3
  }

  /** Switching modes touches nothing else. */
  function SetMode(s: Recorder, m: Mode): (r: Recorder)
    ensures r.mode == m && r.(mode := s.mode) == s
  {
    s.(mode := m)
  }

  /** Pointer-down opens a line at the pointer, in draw mode only. */
  function Down(s: Recorder, pos: Point): (r: Recorder)
    ensures s.mode != Draw ==> r == s
    ensures s.mode == Draw ==>
      && r.lines == s.lines + [Line([pos.x, pos.y], "#000", 3)]
      && r.currentLineIndex == |r.lines| - 1
      && r.isDrawing
      && r.lastDraw == s.lastDraw && r.mode == s.mode
  {
    if s.mode != Draw then s
    else
      var lines := s.lines + [Line([pos.x, pos.y], "#000", 3)];
      s.(isDrawing := true, lines := lines, currentLineIndex := |lines| - 1)
  }

  /** The time gate of a pointer-move: a stroke is open, the mode is draw
      and at least DrawThrottleMs have passed since the last accepted move. */
  predicate GatePasses(s: Recorder, now: int) {
    s.isDrawing && s.mode == Draw && now - s.lastDraw >= DrawThrottleMs
  }

  /** Pointer-move: appends the pointer to the current line when the gate
      passes, the pointer is known and the index is valid. */
  function Move(s: Recorder, now: int, pos: Option<Point>): (r: MoveResult)
    ensures r.outcome == Appended <==>
      GatePasses(s, now) && pos.Some? && 0 <= s.currentLineIndex < |s.lines|
    ensures r.outcome == Faulted <==>
      GatePasses(s, now) && pos.Some? && s.currentLineIndex >= |s.lines|
    ensures r.next.lastDraw == if GatePasses(s, now) then now else s.lastDraw
    ensures r.next.(lastDraw := s.lastDraw, lines := s.lines) == s
    ensures r.outcome != Appended ==> r.next.lines == s.lines
    ensures r.outcome == Appended ==>
      var i := s.currentLineIndex;
      && |r.next.lines| == |s.lines|
      && r.next.lines[i] == s.lines[i].(points := s.lines[i].points + [pos.value.x, pos.value.y])
      && forall j :: 0 <= j < |s.lines| && j != i ==> r.next.lines[j] == s.lines[j]
  {
    if !s.isDrawing || s.mode != Draw then MoveResult(s, Ignored)
    else if now - s.lastDraw < DrawThrottleMs then MoveResult(s, Throttled)
    else
      var s1 := s.(lastDraw := now);
      if pos.None? then MoveResult(s1, NoPointer)
      else
        var idx := s.currentLineIndex;
        if idx < 0 then MoveResult(s1, NoOpenLine)
        else if idx >= |s.lines| then MoveResult(s1, Faulted)
        else
          var line := s.lines[idx];
          var grown := line.(points := line.points + [pos.value.x, pos.value.y]);
          MoveResult(s1.(lines := s.lines[idx := grown]), Appended)
  }

  /** Pointer-up closes the stroke, but only in draw mode. */
  function Up(s: Recorder): (r: Recorder)
    ensures s.mode == Draw ==> !r.isDrawing && r.currentLineIndex == -1
    ensures s.mode != Draw ==> r == s
    ensures r.(isDrawing := s.isDrawing, currentLineIndex := s.currentLineIndex) == s
  {
    if s.mode == Draw then s.(isDrawing := false, currentLineIndex := -1) else s
  }

  /** Undo drops the last line, if any; nothing else changes. */
  function Undo(s: Recorder): (r: Recorder)
    ensures |r.lines| == if s.lines == [] then 0 else |s.lines| - 1
    ensures forall i :: 0 <= i < |r.lines| ==> r.lines[i] == s.lines[i]
    ensures r.(lines := s.lines) == s
  {
    s.(lines := if s.lines == [] then [] else s.lines[..|s.lines| - 1])
  }

  /** Clear drops every line; nothing else changes. */
  function ClearAll(s: Recorder): (r: Recorder)
    ensures r.lines == [] && r.(lines := s.lines) == s
  {
    s.(lines := [])
  }

  /** Every event keeps the recorder well formed. */
  lemma EventsKeepWellFormed(s: Recorder, pos: Point, now: int, p: Option<Point>, m: Mode)
    requires WellFormed(s)
    ensures WellFormed(Down(s, pos))
    ensures WellFormed(Move(s, now, p).next)
    ensures WellFormed(Up(s)) && WellFormed(Undo(s)) && WellFormed(ClearAll(s)) && WellFormed(SetMode(s, m))
  {
  }

  /** The number of coordinates recorded over all lines. */
  function TotalCoords(lines: seq<Line>): (n: nat)
  {
    if lines == [] then 0 else |lines[0].points| + TotalCoords(lines[1..])
  }

  /** Replacing one line changes the total by the difference in its length. */
  lemma {:induction false} TotalCoordsUpdate(lines: seq<Line>, i: int, l: Line)
    requires 0 <= i < |lines|
    ensures TotalCoords(lines[i := l]) == TotalCoords(lines) - |lines[i].points| + |l.points|
  {
    if i > 0 {
      assert lines[i := l][1..] == lines[1..][i - 1 := l];
      TotalCoordsUpdate(lines[1..], i - 1, l);
    } else {
      assert lines[i := l][1..] == lines[1..];
    }
  }

  /** A pointer-move records exactly one point, two coordinates, when it
      appends, and none otherwise. */
  lemma MoveCoords(s: Recorder, now: int, pos: Option<Point>)
    ensures var r := Move(s, now, pos);
      TotalCoords(r.next.lines) == TotalCoords(s.lines) + if r.outcome == Appended then 2 else 0
  {
    var r := Move(s, now, pos);
    if r.outcome == Appended {
      var i := s.currentLineIndex;
      TotalCoordsUpdate(s.lines, i, r.next.lines[i]);
      assert r.next.lines == s.lines[i := r.next.lines[i]];
    }
  }

  /** Two pointer-moves less than DrawThrottleMs apart record at most one
      point between them. */
  lemma ThrottleTwoMoves(s: Recorder, t1: int, t2: int, p1: Option<Point>, p2: Option<Point>)
    requires t2 < t1 + DrawThrottleMs
    ensures var m1 := Move(s, t1, p1); var m2 := Move(m1.next, t2, p2);
      && !(m1.outcome == Appended && m2.outcome == Appended)
      && TotalCoords(m2.next.lines) <= TotalCoords(s.lines) + 2
  {
    var m1 := Move(s, t1, p1);
    MoveCoords(s, t1, p1);
    MoveCoords(m1.next, t2, p2);
  }

  /** Undo after a pointer-down in draw mode gives back the lines as they
      were before the pointer-down. */
  lemma UndoAfterDown(s: Recorder, pos: Point)
    requires s.mode == Draw
    ensures Undo(Down(s, pos)).lines == s.lines
  {
  }

  /** The undo-during-stroke hazard: after a pointer-down, an undo or a
      clear leaves the stroke open with the current index past the end of
      the list, so the next accepted pointer-move faults. */
  lemma UndoOrClearMidStrokeFaults(s: Recorder, pos: Point, now: int, q: Point)
    requires s.mode == Draw && now - s.lastDraw >= DrawThrottleMs
    ensures var u := Undo(Down(s, pos));
      u.isDrawing && u.currentLineIndex == |u.lines| && Move(u, now, Some(q)).outcome == Faulted
    ensures var c := ClearAll(Down(s, pos));
      c.isDrawing && c.currentLineIndex >= |c.lines| && Move(c, now, Some(q)).outcome == Faulted
  {
  }

  /** Switching to play mid-stroke and lifting the pointer does not close
      the stroke: back in draw mode, the next accepted move still extends the
      same line. */
  lemma PlayModeUpLeavesStrokeOpen(s: Recorder, pos: Point, now: int, q: Point)
    requires s.mode == Draw && now - s.lastDraw >= DrawThrottleMs
    ensures var d := Down(s, pos);
      var u := Up(SetMode(d, Play));
      && u.isDrawing && u.currentLineIndex == |s.lines|
      && var m := Move(SetMode(u, Draw), now, Some(q));
      && m.outcome == Appended
      && m.next.lines[|s.lines|].points == [pos.x, pos.y, q.x, q.y]
  {
  }

  /** In draw mode, a stroke begun at (10, 10), extended to (20, 20) after
      the throttle interval, closed and undone, leaves the lines as before. */
  lemma DrawExtendUndoScenario(s: Recorder, now: int)
    requires s.mode == Draw && now - s.lastDraw >= DrawThrottleMs
    ensures var d := Down(s, Point(10.0, 10.0));
      var m := Move(d, now, Some(Point(20.0, 20.0)));
      && m.outcome == Appended
      && m.next.lines[|s.lines|].points == [10.0, 10.0, 20.0, 20.0]
      && Undo(Up(m.next)).lines == s.lines
  {
  }
}
