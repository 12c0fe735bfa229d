/**
 * Glyph outline geometry and the `GeometrySink` recorder of
 * naive_bvh/main.cpp, which turns the path commands of a glyph outline
 * into chained segments: cubic Bezier curves (four points), quadratic
 * Bezier curves (three points) and straight lines (two points), each
 * starting where the previous segment ended.
 *
 * Coordinates are integers, so that min, max and translation are exact.
 */
module Geometry {

  datatype Point = Point(x: int, y: int)

  const Origin := Point(0, 0)

  type Cubic = s: seq<Point> | |s| == 4 witness [Origin, Origin, Origin, Origin]
  type Quadratic = s: seq<Point> | |s| == 3 witness [Origin, Origin, Origin]
  type Line = s: seq<Point> | |s| == 2 witness [Origin, Origin]

  /** A cubic segment given by its two control points and its end point. */
  datatype BezierSegment = BezierSegment(point1: Point, point2: Point, point3: Point)

  /** A quadratic segment given by its control point and its end point. */
  datatype QuadraticBezierSegment = QuadraticBezierSegment(point1: Point, point2: Point)

  /** The concatenation of the point arrays of `s`, in order. */
  function Flatten(s: seq<seq<Point>>): seq<Point> {
    if s == [] then [] else Flatten(s[..|s| - 1]) + s[|s| - 1]
  }

  /** Flattening arrays of `w` points each gives `w` points per array. */
  lemma {:induction false} FlattenLength(s: seq<seq<Point>>, w: nat)
    requires forall i :: 0 <= i < |s| ==> |s[i]| == w
    ensures |Flatten(s)| == w * |s|
  {
    if s != [] {
      var n := |s| - 1;
      FlattenLength(s[..n], w);
      assert w * (n + 1) == w * n + w;
    }
  }

  /**
   * The cubics recorded for `segments` when the pen starts at `start`: each
   * cubic starts where the previous one ended.
   */
  function BezierChain(start: Point, segments: seq<BezierSegment>): seq<Cubic>
    decreases |segments|
  {
    if segments == [] then []
    else
      var s := segments[0];
      [[start, s.point1, s.point2, s.point3]] + BezierChain(s.point3, segments[1..])
  }

  /** The quadratics recorded for `segments` when the pen starts at `start`. */
  function QuadraticChain(start: Point, segments: seq<QuadraticBezierSegment>): seq<Quadratic>
    decreases |segments|
  {
    if segments == [] then []
    else
      var s := segments[0];
      [[start, s.point1, s.point2]] + QuadraticChain(s.point2, segments[1..])
  }

  /** The lines recorded for `points` when the pen starts at `start`. */
  function LineChain(start: Point, points: seq<Point>): seq<Line>
    decreases |points|
  {
    if points == [] then []
    else [[start, points[0]]] + LineChain(points[0], points[1..])
  }

  /**
   * One cubic per segment; cubic `i` runs from the end of segment `i - 1`
   * (from `start` for the first) through the segment's control points to
   * its end point.
   */
  lemma {:induction false} BezierChainShape(start: Point, segments: seq<BezierSegment>)
    ensures |BezierChain(start, segments)| == |segments|
    ensures forall i :: 0 <= i < |segments| ==>
              BezierChain(start, segments)[i]
              == [if i == 0 then start else segments[i - 1].point3,
                  segments[i].point1, segments[i].point2, segments[i].point3]
    decreases |segments|
  {
    if segments != [] {
      BezierChainShape(segments[0].point3, segments[1..]);
    }
  }

  /** One quadratic per segment, chained like the cubics. */
  lemma {:induction false} QuadraticChainShape(start: Point, segments: seq<QuadraticBezierSegment>)
    ensures |QuadraticChain(start, segments)| == |segments|
    ensures forall i :: 0 <= i < |segments| ==>
              QuadraticChain(start, segments)[i]
              == [if i == 0 then start else segments[i - 1].point2, segments[i].point1, segments[i].point2]
    decreases |segments|
  {
    if segments != [] {
      QuadraticChainShape(segments[0].point2, segments[1..]);
    }
  }

  /** One line per point, from the point before it (from `start` for the first). */
  lemma {:induction false} LineChainShape(start: Point, points: seq<Point>)
    ensures |LineChain(start, points)| == |points|
    ensures forall i :: 0 <= i < |points| ==>
              LineChain(start, points)[i] == [if i == 0 then start else points[i - 1], points[i]]
    decreases |points|
  {
    if points != [] {
      LineChainShape(points[0], points[1..]);
    }
  }

  /**
   * The outline recorder. The three vectors are the ones the caller lends
   * to the sink; `previous` is the pen position, `beginPoint` the start of
   * the current figure.
   */
  class GeometrySink {
    var cubicSplines: seq<Cubic>
    var quadraticSplines: seq<Quadratic>
    var lines: seq<Line>
    var previous: Point
    var beginPoint: Point

    /** A sink over three empty vectors; the pen starts at the origin. */
    constructor ()
      ensures cubicSplines == [] && quadraticSplines == [] && lines == []
    {
      cubicSplines, quadraticSplines, lines := [], [], [];
      previous, beginPoint := Origin, Origin;
    }

    /** The caller clears the lent vectors before asking for the next glyph's outline. */
    method Clear()
      modifies this
      ensures cubicSplines == [] && quadraticSplines == [] && lines == []
      ensures previous == old(previous) && beginPoint == old(beginPoint)
    {
      cubicSplines, quadraticSplines, lines := [], [], [];
    }

    /** Starts a figure: both the pen and the figure start move to `start`. */
    method BeginFigure(start: Point)
      modifies this
      ensures beginPoint == start && previous == start
      ensures cubicSplines == old(cubicSplines) && quadraticSplines == old(quadraticSplines)
      ensures lines == old(lines)
    {
      previous := start;
      beginPoint := previous;
    }

    /**
     * Appends one cubic per segment, chained from the pen, and moves the pen
     * to the last segment's end.
     */
    method AddBeziers(segments: seq<BezierSegment>)
      modifies this
      ensures cubicSplines == old(cubicSplines) + BezierChain(old(previous), segments)
      ensures previous == if segments == [] then old(previous) else segments[|segments| - 1].point3
      ensures quadraticSplines == old(quadraticSplines) && lines == old(lines)
      ensures beginPoint == old(beginPoint)
    {
      var i := 0;
      while i < |segments|
        invariant 0 <= i <= |segments|
        invariant cubicSplines + BezierChain(previous, segments[i..])
                  == old(cubicSplines) + BezierChain(old(previous), segments)
        invariant previous == if i == 0 then old(previous) else segments[i - 1].point3
        invariant quadraticSplines == old(quadraticSplines) && lines == old(lines)
        invariant beginPoint == old(beginPoint)
      {
        var s := segments[i];
        assert segments[i..][1..] == segments[i + 1..];
        cubicSplines := cubicSplines + [[previous, s.point1, s.point2, s.point3]];
        previous := s.point3;
        i := i + 1;
      }
    }

    /** Appends one quadratic per segment, chained from the pen. */
    method AddQuadraticBeziers(segments: seq<QuadraticBezierSegment>)
      modifies this
      ensures quadraticSplines == old(quadraticSplines) + QuadraticChain(old(previous), segments)
      ensures previous == if segments == [] then old(previous) else segments[|segments| - 1].point2
      ensures cubicSplines == old(cubicSplines) && lines == old(lines)
      ensures beginPoint == old(beginPoint)
    {
      var i := 0;
      while i < |segments|
        invariant 0 <= i <= |segments|
        invariant quadraticSplines + QuadraticChain(previous, segments[i..])
                  == old(quadraticSplines) + QuadraticChain(old(previous), segments)
        invariant previous == if i == 0 then old(previous) else segments[i - 1].point2
        invariant cubicSplines == old(cubicSplines) && lines == old(lines)
        invariant beginPoint == old(beginPoint)
      {
        var s := segments[i];
        assert segments[i..][1..] == segments[i + 1..];
        quadraticSplines := quadraticSplines + [[previous, s.point1, s.point2]];
        previous := s.point2;
        i := i + 1;
      }
    }

    /** Appends one line per point, chained from the pen. */
    method AddLines(points: seq<Point>)
      modifies this
      ensures lines == old(lines) + LineChain(old(previous), points)
      ensures previous == if points == [] then old(previous) else points[|points| - 1]
      ensures cubicSplines == old(cubicSplines) && quadraticSplines == old(quadraticSplines)
      ensures beginPoint == old(beginPoint)
    {
      var i := 0;
      while i < |points|
        invariant 0 <= i <= |points|
        invariant lines + LineChain(previous, points[i..]) == old(lines) + LineChain(old(previous), points)
        invariant previous == if i == 0 then old(previous) else points[i - 1]
        invariant cubicSplines == old(cubicSplines) && quadraticSplines == old(quadraticSplines)
        invariant beginPoint == old(beginPoint)
      {
        assert points[i..][1..] == points[i + 1..];
        lines := lines + [[previous, points[i]]];
        previous := points[i];
        i := i + 1;
      }
    }

    /** A single cubic: `AddBeziers` with one segment. */
    method AddBezier(segment: BezierSegment)
      modifies this
      ensures cubicSplines == old(cubicSplines) + [[old(previous), segment.point1, segment.point2, segment.point3]]
      ensures previous == segment.point3
      ensures quadraticSplines == old(quadraticSplines) && lines == old(lines)
      ensures beginPoint == old(beginPoint)
    {
      AddBeziers([segment]);
    }

    /** A single quadratic: `AddQuadraticBeziers` with one segment. */
    method AddQuadraticBezier(segment: QuadraticBezierSegment)
      modifies this
      ensures quadraticSplines == old(quadraticSplines) + [[old(previous), segment.point1, segment.point2]]
      ensures previous == segment.point2
      ensures cubicSplines == old(cubicSplines) && lines == old(lines)
      ensures beginPoint == old(beginPoint)
    {
      AddQuadraticBeziers([segment]);
    }

    /** A single line: `AddLines` with one point. */
    method AddLine(point: Point)
      modifies this
      ensures lines == old(lines) + [[old(previous), point]]
      ensures previous == point
      ensures cubicSplines == old(cubicSplines) && quadraticSplines == old(quadraticSplines)
      ensures beginPoint == old(beginPoint)
    {
      AddLines([point]);
    }

    /**
     * Ends a figure by closing it: one more line, from the pen back to the
     * figure's start, which leaves the pen at the start.
     */
    method EndFigure()
      modifies this
      ensures lines == old(lines) + [[old(previous), old(beginPoint)]]
      ensures lines[|lines| - 1][1] == beginPoint && previous == beginPoint
      ensures cubicSplines == old(cubicSplines) && quadraticSplines == old(quadraticSplines)
      ensures beginPoint == old(beginPoint)
    {
      AddLines([beginPoint]);
    }
  }
}
