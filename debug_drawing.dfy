/** The debug line buffer (graphics/DebugDrawing.cpp): systems append line
    segments during a frame, the renderer reads them, and Clear empties the
    list. */
module DebugDraw {
  import opened Vectors

  /** DebugLine */
  datatype Line = Line(start: Vec2, end: Vec2)

  /** One call that appends to the buffer. */
  datatype Command = AddLineCall(start: Vec2, end: Vec2) | AddCrossCall(pos: Vec2, size: real)

  /** The two lines of a cross: horizontal first, then vertical. */
  function CrossLines(pos: Vec2, size: real): (r: seq<Line>)
    ensures |r| == 2
  {
    [Line(Add(pos, Vec2(size, 0.0)), Sub(pos, Vec2(size, 0.0))),
     Line(Add(pos, Vec2(0.0, size)), Sub(pos, Vec2(0.0, size)))]
  }

  /** Both lines of a cross have `pos` as their midpoint, each has length
      2 * size along its axis, and the two are perpendicular. */
  lemma CrossShape(pos: Vec2, size: real)
    ensures forall l | l in CrossLines(pos, size) :: Add(l.start, l.end) == Scale(2.0, pos)
    ensures Sub(CrossLines(pos, size)[0].start, CrossLines(pos, size)[0].end) == Vec2(2.0 * size, 0.0)
    ensures Sub(CrossLines(pos, size)[1].start, CrossLines(pos, size)[1].end) == Vec2(0.0, 2.0 * size)
    ensures Dot(Sub(CrossLines(pos, size)[0].start, CrossLines(pos, size)[0].end),
                Sub(CrossLines(pos, size)[1].start, CrossLines(pos, size)[1].end)) == 0.0
  {
  }

  /** The lines a sequence of calls appends, in call order. */
  function Drawn(calls: seq<Command>): seq<Line> {
    if |calls| == 0 then []
    else
      var last := calls[|calls| - 1];
      Drawn(calls[..|calls| - 1]) +
      (match last
       case AddLineCall(start, end) => [Line(start, end)]
       case AddCrossCall(pos, size) => CrossLines(pos, size))
  }

  function LineCalls(calls: seq<Command>): nat {
    if |calls| == 0 then 0
    else LineCalls(calls[..|calls| - 1]) + (if calls[|calls| - 1].AddLineCall? then 1 else 0)
  }

  function CrossCalls(calls: seq<Command>): nat {
    if |calls| == 0 then 0
    else CrossCalls(calls[..|calls| - 1]) + (if calls[|calls| - 1].AddCrossCall? then 1 else 0)
  }

  /** Calls made one after the other append their lines one after the other. */
  lemma {:induction false} DrawnAppend(a: seq<Command>, b: seq<Command>)
    ensures Drawn(a + b) == Drawn(a) + Drawn(b)
  {
    if |b| == 0 {
      assert a + b == a;
    } else {
      var front := b[..|b| - 1];
      assert (a + b)[..|a + b| - 1] == a + front;
      assert (a + b)[|a + b| - 1] == b[|b| - 1];
      DrawnAppend(a, front);
    }
  }

  /** After n AddLine and m AddCross calls since the last Clear the buffer
      holds n + 2m lines. */
  lemma {:induction false} DrawnCount(calls: seq<Command>)
    ensures |Drawn(calls)| == LineCalls(calls) + 2 * CrossCalls(calls)
  {
    if |calls| > 0 {
      DrawnCount(calls[..|calls| - 1]);
    }
  }

  /** DebugDrawing */
  class DebugDrawing {
    var lines: seq<Line>

    constructor ()
      ensures lines == []
    {
      lines := [];
    }

    /** AddLine: append one line at the end, keeping the earlier ones. */
    method AddLine(start: Vec2, end: Vec2)
      modifies this
      ensures lines == old(lines) + [Line(start, end)]
      ensures lines == old(lines) + Drawn([AddLineCall(start, end)])
    {
      lines := lines + [Line(start, end)];
      assert [AddLineCall(start, end)][..0] == [];
    }

    /** AddCross: append the horizontal, then the vertical line of a cross. */
    method AddCross(pos: Vec2, size: real)
      modifies this
      ensures lines == old(lines) + CrossLines(pos, size)
      ensures lines == old(lines) + Drawn([AddCrossCall(pos, size)])
    {
      AddLine(Add(pos, Vec2(size, 0.0)), Sub(pos, Vec2(size, 0.0)));
      AddLine(Add(pos, Vec2(0.0, size)), Sub(pos, Vec2(0.0, size)));
      assert [AddCrossCall(pos, size)][..0] == [];
    }

    /** GetLines: the lines, unchanged. */
    method GetLines() returns (r: seq<Line>)
      ensures r == lines
    {
      r := lines;
    }

    /** Clear: empty the buffer. */
    method Clear()
      modifies this
      ensures lines == []
    {
      lines := [];
    }
  }
}
