/** The board's free-draw refs and mode as mutable state: each handler
    updates the fields in place, and its contract ties the new state to the
    matching transition of Strokes. */
module Board {
  import opened Wrappers
  import opened Modes
  import opened Geometry
  import opened Strokes

  class Board {
    var lines: seq<Line>
    var currentLineIndex: int
    var isDrawing: bool
    var lastDraw: int
    var mode: Mode

    /** The abstract recorder state held by the fields. */
    function State(): Recorder
      reads this
    {
      Recorder(lines, currentLineIndex, isDrawing, lastDraw, mode)
    }

    ghost predicate Valid()
      reads this
    {
      WellFormed(State())
    }

    /** No lines, no open stroke, the clock at 0, play mode. */
    constructor ()
      ensures Valid() && State() == Initial()
    {
      lines := [];
      currentLineIndex := -1;
      isDrawing := false;
      lastDraw := 0;
      mode := Play;
    }

    method SetMode(m: Mode)
      requires Valid()
      modifies this
      ensures Valid() && State() == Strokes.SetMode(old(State()), m)
    {
      mode := m;
    }

    method PointerDown(pos: Point)
      requires Valid()
      modifies this
      ensures Valid() && State() == Down(old(State()), pos)
    {
      if mode != Draw {
        return;
      }
      isDrawing := true;
      lines := lines + [Line([pos.x, pos.y], "#000", 3)];
      currentLineIndex := |lines| - 1;
    }

    /** `now` is the clock reading and `pos` the pointer position, if the
        stage has one. */
    method PointerMove(now: int, pos: Option<Point>) returns (outcome: MoveOutcome)
      requires Valid()
      modifies this
      ensures Valid() && MoveResult(State(), outcome) == Move(old(State()), now, pos)
    {
      EventsKeepWellFormed(State(), Point(0.0, 0.0), now, pos, mode);
      if !isDrawing || mode != Draw {
        return Ignored;
      }
      if now - lastDraw < DrawThrottleMs {
        return Throttled;
      }
      lastDraw := now;
      if pos.None? {
        return NoPointer;
      }
      var idx := currentLineIndex;
      if idx < 0 {
        return NoOpenLine;
      }
      if idx >= |lines| {
        return Faulted;
      }
      var line := lines[idx];
      lines := lines[idx := line.(points := line.points + [pos.value.x, pos.value.y])];
      outcome := Appended;
    }

    method PointerUp()
      requires Valid()
      modifies this
      ensures Valid() && State() == Up(old(State()))
    {
      if mode == Draw {
        isDrawing := false;
        currentLineIndex := -1;
      }
    }

    method UndoDraw()
      requires Valid()
      modifies this
      ensures Valid() && State() == Undo(old(State()))
    {
      lines := if lines == [] then [] else lines[..|lines| - 1];
    }

    method Clear()
      requires Valid()
      modifies this
      ensures Valid() && State() == ClearAll(old(State()))
    {
      lines := [];
    }
  }

  /** A fresh board: draw mode, pointer-down, undo, then a pointer-move after
      the throttle interval reaches the source's undefined-line read. */
  method UndoMidStrokeThenMove() returns (outcome: MoveOutcome, lineCount: nat)
    ensures outcome == Faulted && lineCount == 0
  {
    var b := new Board();
    b.SetMode(Draw);
    b.PointerDown(Point(10.0, 10.0));
    b.UndoDraw();
    outcome := b.PointerMove(100, Some(Point(20.0, 20.0)));
    lineCount := |b.lines|;
  }

  /** A fresh board: draw mode, a stroke from (10, 10) to (20, 20) drawn
      after the throttle interval, pointer-up, undo: no lines remain. */
  method DrawThenUndo() returns (outcome: MoveOutcome, lineCount: nat)
    ensures outcome == Appended && lineCount == 0
  {
    var b := new Board();
    b.SetMode(Draw);
    b.PointerDown(Point(10.0, 10.0));
    outcome := b.PointerMove(8, Some(Point(20.0, 20.0)));
    b.PointerUp();
    b.UndoDraw();
    lineCount := |b.lines|;
  }
}
