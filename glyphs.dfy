/**
 * The glyph cache of `TextRenderer` in naive_bvh/main.cpp, monochrome
 * path: each distinct (em size, glyph) pair is outlined once, its outline
 * points are appended to a shared point list translated so that the
 * glyph's bounding box starts at the origin, and the box and the range of
 * colour runs it owns are remembered at an offset that a map from the pair
 * records. Every drawn glyph with a non-empty range contributes its box,
 * moved to the pen position, and its range to the per-frame lists that
 * `updateBuffers` hands to the GPU and then clears.
 *
 * The outline DirectWrite produces for a glyph is an input: the three
 * vectors that the outline recorder fills.
 */
module GlyphCache {
  import opened Geometry
  import opened Optional

  /** A glyph index of a font, `UINT16`. */
  type GlyphIndex = g: int | 0 <= g < 0x1_0000

  /** The key of the cache: the run's em size and the glyph index. */
  datatype GlyphKey = GlyphKey(emSize: real, glyph: GlyphIndex)

  datatype Box = Box(low: Point, high: Point)

  /** A half-open range of indices into the colour-run lists. */
  datatype Range = Range(first: nat, second: nat)

  datatype Color = Color(r: real, g: real, b: real, a: real)

  /** The colour pushed for a monochrome glyph: a negative red channel stands for "the text colour". */
  const TextColor := Color(-1.0, 0.0, 0.0, 0.0)

  /**
   * Where a glyph's points start in the point list, and where its cubic,
   * quadratic and line points end.
   */
  type PointIndices = s: seq<nat> | |s| == 4 witness [0, 0, 0, 0]

  /** The outline of one glyph, as recorded by the geometry sink. */
  datatype GlyphOutline = GlyphOutline(cubics: seq<Cubic>, quadratics: seq<Quadratic>, lines: seq<Line>)

  /** The points a glyph's outline appends, cubics first, then quadratics, then lines. */
  function OutlinePoints(o: GlyphOutline): seq<Point> {
    Flatten(o.cubics) + Flatten(o.quadratics) + Flatten(o.lines)
  }

  predicate Within(p: Point, b: Box) {
    b.low.x <= p.x <= b.high.x && b.low.y <= p.y <= b.high.y
  }

  /**
   * `b` is the smallest box holding the non-empty `pts`: every point lies
   * in it and each of its four sides touches a point.
   */
  predicate IsTightBox(pts: seq<Point>, b: Box) {
    && |pts| > 0
    && (forall i :: 0 <= i < |pts| ==> Within(pts[i], b))
    && (exists i :: 0 <= i < |pts| && pts[i].x == b.low.x)
    && (exists i :: 0 <= i < |pts| && pts[i].y == b.low.y)
    && (exists i :: 0 <= i < |pts| && pts[i].x == b.high.x)
    && (exists i :: 0 <= i < |pts| && pts[i].y == b.high.y)
  }

  function Offset(p: Point, d: Point): Point {
    Point(p.x + d.x, p.y + d.y)
  }

  /** `pts` moved by minus `d`. */
  function Shift(pts: seq<Point>, d: Point): seq<Point> {
    seq(|pts|, i requires 0 <= i < |pts| => Point(pts[i].x - d.x, pts[i].y - d.y))
  }

  /**
   * Moving points by minus the low corner of their tight box puts them in
   * the first quadrant, touching both axes, with the box moved along; and
   * moving them back by that corner restores them.
   */
  lemma ShiftToOrigin(pts: seq<Point>, b: Box)
    requires IsTightBox(pts, b)
    ensures forall i :: 0 <= i < |pts| ==> Shift(pts, b.low)[i].x >= 0 && Shift(pts, b.low)[i].y >= 0
    ensures exists i :: 0 <= i < |pts| && Shift(pts, b.low)[i].x == 0
    ensures exists i :: 0 <= i < |pts| && Shift(pts, b.low)[i].y == 0
    ensures IsTightBox(Shift(pts, b.low), Box(Origin, Point(b.high.x - b.low.x, b.high.y - b.low.y)))
    ensures forall i :: 0 <= i < |pts| ==>
              Shift(pts, b.low)[i].x + b.low.x == pts[i].x && Shift(pts, b.low)[i].y + b.low.y == pts[i].y
  {
    var s := Shift(pts, b.low);
    var nb := Box(Origin, Point(b.high.x - b.low.x, b.high.y - b.low.y));
    var i0 :| 0 <= i0 < |pts| && pts[i0].x == b.low.x;
    var i1 :| 0 <= i1 < |pts| && pts[i1].y == b.low.y;
    var i2 :| 0 <= i2 < |pts| && pts[i2].x == b.high.x;
    var i3 :| 0 <= i3 < |pts| && pts[i3].y == b.high.y;
    assert s[i0].x == 0 && s[i1].y == 0 && s[i2].x == nb.high.x && s[i3].y == nb.high.y;
    assert forall i :: 0 <= i < |pts| ==> Within(s[i], nb);
  }

  /** A drawn glyph: its box at the pen position and its colour-run range. */
  datatype Placement = Placement(bounds: Box, range: Range)

  predicate IsVisible(p: Placement) {
    p.range.second > p.range.first
  }

  /** The placements that reach the per-frame lists: those with a non-empty range, in order. */
  function Visible(ps: seq<Placement>): seq<Placement> {
    if ps == [] then []
    else Visible(ps[..|ps| - 1]) + (if IsVisible(ps[|ps| - 1]) then [ps[|ps| - 1]] else [])
  }

  function BoundsOf(ps: seq<Placement>): seq<Box> {
    seq(|ps|, i requires 0 <= i < |ps| => ps[i].bounds)
  }

  function RangesOf(ps: seq<Placement>): seq<Range> {
    seq(|ps|, i requires 0 <= i < |ps| => ps[i].range)
  }

  /** Exactly the visible placements are kept, and no more placements than there were. */
  lemma {:induction false} VisibleFilters(ps: seq<Placement>)
    ensures forall p :: p in Visible(ps) <==> p in ps && IsVisible(p)
    ensures |Visible(ps)| <= |ps|
  {
    if ps != [] {
      VisibleFilters(ps[..|ps| - 1]);
      assert ps == ps[..|ps| - 1] + [ps[|ps| - 1]];
    }
  }

  /** Sum of the first `n` advances. */
  function Advance(advances: seq<int>, n: nat): int
    requires n <= |advances|
  {
    if n == 0 then 0 else Advance(advances, n - 1) + advances[n - 1]
  }

  /**
   * The pen position of glyph `i` of a run: the run's origin, moved right
   * by the advances of the glyphs before it when the run has advances.
   */
  function Pen(baseX: int, baseY: int, advances: Option<seq<int>>, i: nat): (r: Point)
    requires advances.Some? ==> i <= |advances.value|
    ensures r.y == baseY
    ensures advances.None? || i == 0 ==> r.x == baseX
  {
    if advances.Some? then Point(baseX + Advance(advances.value, i), baseY) else Point(baseX, baseY)
  }

  /** After each glyph the pen moves right by that glyph's advance, when the run has advances. */
  lemma PenStep(baseX: int, baseY: int, advances: Option<seq<int>>, i: nat)
    requires advances.Some? ==> i < |advances.value|
    ensures Pen(baseX, baseY, advances, i + 1).x
              == Pen(baseX, baseY, advances, i).x + (if advances.Some? then advances.value[i] else 0)
  {
  }

  /**
   * Where each glyph of `glyphs` is drawn and with which range, given the
   * cache tables: the box cached for the glyph, moved to its pen position.
   */
  function Placements(keys: seq<GlyphKey>, pens: seq<Point>, table: map<GlyphKey, nat>,
                      boxes: seq<Box>, ranges: seq<Range>): seq<Placement>
    requires |pens| == |keys| && |boxes| == |ranges|
    requires forall i :: 0 <= i < |keys| ==> keys[i] in table && table[keys[i]] < |boxes|
  {
    seq(|keys|, i requires 0 <= i < |keys| =>
      var b := boxes[table[keys[i]]];
      Placement(Box(Offset(b.low, pens[i]), Offset(b.high, pens[i])), ranges[table[keys[i]]]))
  }

  /** Filtering one more placement adds it exactly when it is visible. */
  lemma VisibleAppend(ps: seq<Placement>, p: Placement)
    ensures Visible(ps + [p]) == Visible(ps) + Visible([p])
  {
    assert (ps + [p])[..|ps|] == ps;
    assert [p][..0] == [];
  }

  lemma PartsAppend(a: seq<Placement>, b: seq<Placement>)
    ensures BoundsOf(a + b) == BoundsOf(a) + BoundsOf(b)
    ensures RangesOf(a + b) == RangesOf(a) + RangesOf(b)
  {
  }

  /**
   * Placements depend only on the cache entries of the glyphs placed: a
   * cache that keeps those entries and the prefixes of its tables places
   * them identically.
   */
  lemma PlacementsStable(keys: seq<GlyphKey>, pens: seq<Point>,
                         table: map<GlyphKey, nat>, boxes: seq<Box>, ranges: seq<Range>,
                         table': map<GlyphKey, nat>, boxes': seq<Box>, ranges': seq<Range>)
    requires |pens| == |keys| && |boxes| == |ranges| && |boxes'| == |ranges'|
    requires forall i :: 0 <= i < |keys| ==> keys[i] in table && table[keys[i]] < |boxes|
    requires SubTable(table, table')
    requires boxes <= boxes' && ranges <= ranges'
    ensures forall i :: 0 <= i < |keys| ==> keys[i] in table' && table'[keys[i]] < |boxes'|
    ensures Placements(keys, pens, table', boxes', ranges') == Placements(keys, pens, table, boxes, ranges)
  {
    forall i | 0 <= i < |keys|
      ensures boxes'[table[keys[i]]] == boxes[table[keys[i]]]
      ensures ranges'[table[keys[i]]] == ranges[table[keys[i]]]
    {
      assert boxes'[..|boxes|][table[keys[i]]] == boxes'[table[keys[i]]];
      assert ranges'[..|ranges|][table[keys[i]]] == ranges'[table[keys[i]]];
    }
  }

  /**
   * Where a glyph whose outline is stored from `start` on begins, and where
   * its cubic, quadratic and line points end.
   */
  function OutlineIndices(start: nat, o: GlyphOutline): PointIndices {
    var cubicEnd := start + 4 * |o.cubics|;
    var quadraticEnd := cubicEnd + 3 * |o.quadratics|;
    [start, cubicEnd, quadraticEnd, quadraticEnd + 2 * |o.lines|]
  }

  /** An outline has four points per cubic, three per quadratic and two per line. */
  lemma OutlinePointsLength(o: GlyphOutline)
    ensures |OutlinePoints(o)| == 4 * |o.cubics| + 3 * |o.quadratics| + 2 * |o.lines|
  {
    FlattenLength(o.cubics, 4);
    FlattenLength(o.quadratics, 3);
    FlattenLength(o.lines, 2);
  }

  /**
   * The indices delimit the glyph's points: after a prefix of `start`
   * points, the slices between consecutive indices are the cubic, the
   * quadratic and the line points of the outline.
   */
  lemma OutlineIndicesDelimit(prefix: seq<Point>, o: GlyphOutline)
    ensures var pts := prefix + OutlinePoints(o);
            var inds := OutlineIndices(|prefix|, o);
            && inds[3] == |pts|
            && pts[inds[0]..inds[1]] == Flatten(o.cubics)
            && pts[inds[1]..inds[2]] == Flatten(o.quadratics)
            && pts[inds[2]..inds[3]] == Flatten(o.lines)
  {
    FlattenLength(o.cubics, 4);
    FlattenLength(o.quadratics, 3);
    FlattenLength(o.lines, 2);
    var pts := prefix + OutlinePoints(o);
    var inds := OutlineIndices(|prefix|, o);
    assert pts == prefix + Flatten(o.cubics) + Flatten(o.quadratics) + Flatten(o.lines);
    assert pts[inds[0]..inds[1]] == Flatten(o.cubics);
    assert pts[inds[1]..inds[2]] == Flatten(o.quadratics);
  }

  /** The cache keys of the first `n` glyphs of a run. */
  function RunKeys(emSize: real, glyphs: seq<GlyphIndex>, n: nat): seq<GlyphKey>
    requires n <= |glyphs|
  {
    seq(n, k requires 0 <= k < n => GlyphKey(emSize, glyphs[k]))
  }

  /** The pen positions of the first `n` glyphs of a run. */
  function RunPens(baseX: int, baseY: int, advances: Option<seq<int>>, n: nat): seq<Point>
    requires advances.Some? ==> n <= |advances.value|
  {
    seq(n, k requires 0 <= k < n => Pen(baseX, baseY, advances, k))
  }

  /** One more glyph of a run adds its own placement at the end. */
  lemma RunStep(emSize: real, glyphs: seq<GlyphIndex>, baseX: int, baseY: int, advances: Option<seq<int>>, i: nat,
                table: map<GlyphKey, nat>, boxes: seq<Box>, ranges: seq<Range>)
    requires i < |glyphs| && (advances.Some? ==> |advances.value| >= |glyphs|) && |boxes| == |ranges|
    requires forall k :: 0 <= k <= i ==> GlyphKey(emSize, glyphs[k]) in table && table[GlyphKey(emSize, glyphs[k])] < |boxes|
    ensures var o := table[GlyphKey(emSize, glyphs[i])];
            var pen := Pen(baseX, baseY, advances, i);
            Placements(RunKeys(emSize, glyphs, i + 1), RunPens(baseX, baseY, advances, i + 1), table, boxes, ranges)
            == Placements(RunKeys(emSize, glyphs, i), RunPens(baseX, baseY, advances, i), table, boxes, ranges)
               + [Placement(Box(Offset(boxes[o].low, pen), Offset(boxes[o].high, pen)), ranges[o])]
  {
  }

  /**
   * After the first `n` glyphs of a run drawn with the cache `table`,
   * `boxes`, `ranges`: each of those glyphs is cached, and the per-frame
   * lists `current*` hold what they held before the run (`bounds0`,
   * `ranges0`) followed by the visible placements of those glyphs.
   */
  ghost predicate RunDrawn(bounds0: seq<Box>, ranges0: seq<Range>, emSize: real, glyphs: seq<GlyphIndex>,
                           baseX: int, baseY: int, advances: Option<seq<int>>, n: nat,
                           table: map<GlyphKey, nat>, boxes: seq<Box>, ranges: seq<Range>,
                           currentBounds: seq<Box>, currentRanges: seq<Range>)
  {
    && n <= |glyphs| && (advances.Some? ==> |advances.value| >= |glyphs|)
    && |boxes| == |ranges|
    && (forall k :: 0 <= k < n ==> GlyphKey(emSize, glyphs[k]) in table && table[GlyphKey(emSize, glyphs[k])] < |boxes|)
    && var drawn := Visible(Placements(RunKeys(emSize, glyphs, n), RunPens(baseX, baseY, advances, n),
                                       table, boxes, ranges));
       currentBounds == bounds0 + BoundsOf(drawn) && currentRanges == ranges0 + RangesOf(drawn)
  }

  /** A run drawn with a cache stays drawn, placement for placement, after the cache grows. */
  lemma RunDrawnGrows(bounds0: seq<Box>, ranges0: seq<Range>, emSize: real, glyphs: seq<GlyphIndex>,
                      baseX: int, baseY: int, advances: Option<seq<int>>, n: nat,
                      table: map<GlyphKey, nat>, boxes: seq<Box>, ranges: seq<Range>,
                      table': map<GlyphKey, nat>, boxes': seq<Box>, ranges': seq<Range>,
                      currentBounds: seq<Box>, currentRanges: seq<Range>)
    requires RunDrawn(bounds0, ranges0, emSize, glyphs, baseX, baseY, advances, n,
                      table, boxes, ranges, currentBounds, currentRanges)
    requires |boxes'| == |ranges'| && SubTable(table, table') && boxes <= boxes' && ranges <= ranges'
    ensures RunDrawn(bounds0, ranges0, emSize, glyphs, baseX, baseY, advances, n,
                     table', boxes', ranges', currentBounds, currentRanges)
  {
    PlacementsStable(RunKeys(emSize, glyphs, n), RunPens(baseX, baseY, advances, n),
                     table, boxes, ranges, table', boxes', ranges');
  }

  /**
   * Drawing glyph `i` at its pen position, once it is cached, extends a run
   * drawn up to `i` to one drawn up to `i + 1`.
   */
  lemma RunDrawnStep(bounds0: seq<Box>, ranges0: seq<Range>, emSize: real, glyphs: seq<GlyphIndex>,
                     baseX: int, baseY: int, advances: Option<seq<int>>, i: nat,
                     table: map<GlyphKey, nat>, boxes: seq<Box>, ranges: seq<Range>,
                     currentBounds: seq<Box>, currentRanges: seq<Range>,
                     currentBounds': seq<Box>, currentRanges': seq<Range>)
    requires RunDrawn(bounds0, ranges0, emSize, glyphs, baseX, baseY, advances, i,
                      table, boxes, ranges, currentBounds, currentRanges)
    requires i < |glyphs|
    requires GlyphKey(emSize, glyphs[i]) in table && table[GlyphKey(emSize, glyphs[i])] < |boxes|
    requires var o := table[GlyphKey(emSize, glyphs[i])];
             var pen := Pen(baseX, baseY, advances, i);
             var p := Placement(Box(Offset(boxes[o].low, pen), Offset(boxes[o].high, pen)), ranges[o]);
             currentBounds' == currentBounds + BoundsOf(Visible([p]))
             && currentRanges' == currentRanges + RangesOf(Visible([p]))
    ensures RunDrawn(bounds0, ranges0, emSize, glyphs, baseX, baseY, advances, i + 1,
                     table, boxes, ranges, currentBounds', currentRanges')
  {
    var keys, pens := RunKeys(emSize, glyphs, i), RunPens(baseX, baseY, advances, i);
    var before := Placements(keys, pens, table, boxes, ranges);
    RunStep(emSize, glyphs, baseX, baseY, advances, i, table, boxes, ranges);
    var o := table[GlyphKey(emSize, glyphs[i])];
    var pen := Pen(baseX, baseY, advances, i);
    var p := Placement(Box(Offset(boxes[o].low, pen), Offset(boxes[o].high, pen)), ranges[o]);
    VisibleAppend(before, p);
    PartsAppend(Visible(before), Visible([p]));
  }

  /** The static part of the renderer's cache: what only ever grows. */
  datatype CacheState = CacheState(table: map<GlyphKey, nat>, boxes: seq<Box>, ranges: seq<Range>,
                                   points: seq<Point>, colors: seq<Color>, inds: seq<PointIndices>,
                                   outlines: seq<GlyphOutline>)

  /** `c'` extends `c`: every list keeps its prefix and every cached glyph its offset. */
  predicate Grows(c: CacheState, c': CacheState) {
    && SubTable(c.table, c'.table)
    && c.boxes <= c'.boxes && c.ranges <= c'.ranges
    && c.points <= c'.points && c.colors <= c'.colors && c.inds <= c'.inds
    && c.outlines <= c'.outlines
  }

  /** Growth composes: a cache grown twice has grown from the first state. */
  lemma GrowsTransitive(c: CacheState, c': CacheState, c'': CacheState)
    requires Grows(c, c') && Grows(c', c'')
    ensures Grows(c, c'')
  {
  }

  /**
   * `table` maps each key of `keys` to its position there and holds no
   * other key: a one-to-one map from the cached keys onto the offsets
   * below `|keys|`.
   */
  predicate OffsetTable(table: map<GlyphKey, nat>, keys: seq<GlyphKey>) {
    && (forall k :: k in table ==> table[k] < |keys| && keys[table[k]] == k)
    && (forall i :: 0 <= i < |keys| ==> keys[i] in table && table[keys[i]] == i)
  }

  /** A key not cached yet, given the next offset, keeps the table and the key list in step. */
  lemma OffsetTableAdd(table: map<GlyphKey, nat>, keys: seq<GlyphKey>, key: GlyphKey)
    requires OffsetTable(table, keys) && key !in table
    ensures OffsetTable(table[key := |keys|], keys + [key])
  {
    var table', keys' := table[key := |keys|], keys + [key];
    forall i | 0 <= i < |keys'| ensures keys'[i] in table' && table'[keys'[i]] == i {
      if i < |keys| { assert keys'[i] == keys[i]; }
    }
  }

  /** A table that gains only keys it had already keeps its number of offsets. */
  lemma NoNewKeys(table0: map<GlyphKey, nat>, keys0: seq<GlyphKey>, table: map<GlyphKey, nat>, keys: seq<GlyphKey>,
                  added: set<GlyphKey>)
    requires OffsetTable(table0, keys0) && OffsetTable(table, keys)
    requires table.Keys == table0.Keys + added
    ensures added <= table0.Keys ==> |keys| == |keys0|
  {
    if added <= table0.Keys {
      assert table.Keys == table0.Keys;
      OffsetTableOneToOne(table0, keys0);
      OffsetTableOneToOne(table, keys);
    }
  }

  /** Distinct cached keys have distinct offsets, and there are as many offsets as keys. */
  lemma {:induction false} OffsetTableOneToOne(table: map<GlyphKey, nat>, keys: seq<GlyphKey>)
    requires OffsetTable(table, keys)
    ensures forall k1, k2 :: k1 in table && k2 in table && k1 != k2 ==> table[k1] != table[k2]
    ensures |table| == |keys|
    decreases |keys|
  {
    if keys == [] {
      assert table.Keys == {};
    } else {
      var n := |keys| - 1;
      var last := keys[n];
      var rest := map k | k in table && k != last :: table[k];
      assert OffsetTable(rest, keys[..n]);
      OffsetTableOneToOne(rest, keys[..n]);
      assert table.Keys == rest.Keys + {last};
    }
  }

  /**
   * What caching `outline` does to the point list, the colour runs, the
   * point indices and the upload flag (before: the first four values,
   * after: the next four), yielding the glyph's `box` and `range`. The
   * glyph's runs start at the old end of the run list. An empty outline
   * changes nothing, and gets an all-zero box and an empty range. Otherwise
   * `box` is the outline's tight box, the outline points are appended moved
   * by minus its low corner, one text-colour run with the outline's indices
   * is appended, and the static data must be uploaded again.
   */
  predicate StoresOutline(outline: GlyphOutline,
                          points: seq<Point>, colors: seq<Color>, inds: seq<PointIndices>, valid: bool,
                          points': seq<Point>, colors': seq<Color>, inds': seq<PointIndices>, valid': bool,
                          box: Box, range: Range)
  {
    var pts := OutlinePoints(outline);
    && range == Range(|colors|, |colors'|)
    && (pts == [] ==>
          points' == points && colors' == colors && inds' == inds && valid' == valid && box == Box(Origin, Origin))
    && (pts != [] ==>
          && IsTightBox(pts, box)
          && points' == points + Shift(pts, box.low)
          && colors' == colors + [TextColor]
          && inds' == inds + [OutlineIndices(|points|, outline)]
          && !valid')
  }

  /** Points appended moved by minus their tight box's low corner lie within the moved box and touch both axes. */
  lemma ShiftedIntoBox(points: seq<Point>, pts: seq<Point>, box: Box, points': seq<Point>)
    requires IsTightBox(pts, box) && points' == points + Shift(pts, box.low)
    ensures forall j :: |points| <= j < |points'| ==>
              0 <= points'[j].x <= box.high.x - box.low.x && 0 <= points'[j].y <= box.high.y - box.low.y
    ensures exists j :: |points| <= j < |points'| && points'[j].x == 0
    ensures exists j :: |points| <= j < |points'| && points'[j].y == 0
  {
    var n := |points|;
    ShiftToOrigin(pts, box);
    var s := Shift(pts, box.low);
    forall j | n <= j < |points'|
      ensures 0 <= points'[j].x <= box.high.x - box.low.x && 0 <= points'[j].y <= box.high.y - box.low.y
    {
      assert points'[j] == s[j - n];
      assert Within(pts[j - n], box);
    }
    var jx :| 0 <= jx < |pts| && s[jx].x == 0;
    var jy :| 0 <= jy < |pts| && s[jy].y == 0;
    assert points'[n + jx] == s[jx] && points'[n + jy] == s[jy];
  }

  /**
   * A stored glyph is drawn exactly when its outline has points; it then
   * owns one run, whose indices cover the appended points, and those points
   * lie in the first quadrant within the box moved to the origin, touching
   * both axes.
   */
  lemma StoredGlyphAtOrigin(outline: GlyphOutline,
                            points: seq<Point>, colors: seq<Color>, inds: seq<PointIndices>, valid: bool,
                            points': seq<Point>, colors': seq<Color>, inds': seq<PointIndices>, valid': bool,
                            box: Box, range: Range)
    requires StoresOutline(outline, points, colors, inds, valid, points', colors', inds', valid', box, range)
    requires |inds| == |colors|
    ensures range.first <= range.second
    ensures range.first < range.second <==> OutlinePoints(outline) != []
    ensures OutlinePoints(outline) != [] ==>
              && range.second == range.first + 1
              && inds'[range.first] == OutlineIndices(|points|, outline)
              && inds'[range.first][0] == |points| && inds'[range.first][3] == |points'|
              && (forall j :: |points| <= j < |points'| ==>
                    0 <= points'[j].x <= box.high.x - box.low.x && 0 <= points'[j].y <= box.high.y - box.low.y)
              && (exists j :: |points| <= j < |points'| && points'[j].x == 0)
              && (exists j :: |points| <= j < |points'| && points'[j].y == 0)
  {
    var pts := OutlinePoints(outline);
    if pts != [] {
      OutlinePointsLength(outline);
      ShiftedIntoBox(points, pts, box, points');
    }
  }


  /**
   * Storing an outline only appends to the point list, the colour runs and
   * the point indices, keeps runs and indices in pairs and indices within
   * the point list, and leaves the static data unchanged unless it clears
   * the upload flag.
   */
  lemma StoresOutlineGrows(outline: GlyphOutline,
                           points: seq<Point>, colors: seq<Color>, inds: seq<PointIndices>, valid: bool,
                           points': seq<Point>, colors': seq<Color>, inds': seq<PointIndices>, valid': bool,
                           box: Box, range: Range)
    requires StoresOutline(outline, points, colors, inds, valid, points', colors', inds', valid', box, range)
    ensures points <= points' && colors <= colors' && inds <= inds'
    ensures |inds| == |colors| ==> |inds'| == |colors'|
    ensures IndicesWithin(inds, |points|) ==> IndicesWithin(inds', |points'|)
    ensures valid' ==> valid && points' == points && colors' == colors && inds' == inds
  {
    if OutlinePoints(outline) != [] {
      OutlinePointsLength(outline);
      assert points <= points + Shift(OutlinePoints(outline), box.low);
    }
  }

  lemma RangesGrow(ranges: seq<Range>, n: nat, m: nat)
    requires n <= m
    ensures RangesWithin(ranges, n) ==> RangesWithin(ranges, m)
    ensures NonEmptyWithin(ranges, n) ==> NonEmptyWithin(ranges, m)
  {
  }

  /** Every key of `table` is in `table'` with the same offset. */
  predicate SubTable(table: map<GlyphKey, nat>, table': map<GlyphKey, nat>) {
    forall k :: k in table ==> k in table' && table'[k] == table[k]
  }

  predicate RangesWithin(ranges: seq<Range>, n: nat) {
    forall i :: 0 <= i < |ranges| ==> ranges[i].first <= ranges[i].second <= n
  }

  /** A range within `n` keeps a list of ranges within `n` when appended. */
  lemma RangesWithinAppend(ranges: seq<Range>, n: nat, range: Range)
    requires RangesWithin(ranges, n) && range.first <= range.second <= n
    ensures RangesWithin(ranges + [range], n)
  {
    var ranges' := ranges + [range];
    forall i | 0 <= i < |ranges'| ensures ranges'[i].first <= ranges'[i].second <= n {
      if i < |ranges| { assert ranges'[i] == ranges[i]; }
    }
  }

  predicate NonEmptyWithin(ranges: seq<Range>, n: nat) {
    forall i :: 0 <= i < |ranges| ==> ranges[i].first < ranges[i].second <= n
  }

  predicate IndicesWithin(inds: seq<PointIndices>, n: nat) {
    forall i :: 0 <= i < |inds| ==> inds[i][0] <= inds[i][1] <= inds[i][2] <= inds[i][3] <= n
  }

  /**
   * What the cache holds for a glyph whose outline is `o`, with box `b` and
   * run range `r`. An empty outline has the all-zero box and an empty range.
   * Otherwise `b` is the outline's tight box, and the glyph owns exactly one
   * run: a text-colour run whose indices delimit the outline's cubic,
   * quadratic and line points, which are stored moved by minus the box's
   * low corner.
   */
  predicate EntryHolds(o: GlyphOutline, b: Box, r: Range,
                       points: seq<Point>, colors: seq<Color>, inds: seq<PointIndices>)
  {
    var pts := OutlinePoints(o);
    if pts == [] then b == Box(Origin, Origin) && r.first == r.second
    else
      && IsTightBox(pts, b)
      && r.second == r.first + 1 && r.first < |inds| && r.first < |colors|
      && colors[r.first] == TextColor
      && inds[r.first] == OutlineIndices(inds[r.first][0], o)
      && inds[r.first][3] <= |points|
      && points[inds[r.first][0]..inds[r.first][3]] == Shift(pts, b.low)
  }

  /** Entry `i` of the cache holds the `i`th outline, for every offset. */
  predicate AllEntries(outlines: seq<GlyphOutline>, boxes: seq<Box>, ranges: seq<Range>,
                       points: seq<Point>, colors: seq<Color>, inds: seq<PointIndices>)
  {
    && |outlines| == |boxes| == |ranges|
    && forall i {:trigger EntryHolds(outlines[i], boxes[i], ranges[i], points, colors, inds)} :: 0 <= i < |outlines| ==>
         EntryHolds(outlines[i], boxes[i], ranges[i], points, colors, inds)
  }

  /** An entry keeps holding while the point, colour and index lists only grow. */
  lemma EntryGrows(o: GlyphOutline, b: Box, r: Range,
                   points: seq<Point>, colors: seq<Color>, inds: seq<PointIndices>,
                   points': seq<Point>, colors': seq<Color>, inds': seq<PointIndices>)
    requires EntryHolds(o, b, r, points, colors, inds)
    requires points <= points' && colors <= colors' && inds <= inds'
    ensures EntryHolds(o, b, r, points', colors', inds')
  {
    if OutlinePoints(o) != [] {
      var start, end := inds[r.first][0], inds[r.first][3];
      assert inds'[r.first] == inds[r.first] && colors'[r.first] == colors[r.first];
      assert points'[start..end] == points[start..end];
    }
  }

  /** The glyph whose outline `StoresOutline` stores is held by the box and range it yields. */
  lemma EntryStored(outline: GlyphOutline,
                    points: seq<Point>, colors: seq<Color>, inds: seq<PointIndices>, valid: bool,
                    points': seq<Point>, colors': seq<Color>, inds': seq<PointIndices>, valid': bool,
                    box: Box, range: Range)
    requires StoresOutline(outline, points, colors, inds, valid, points', colors', inds', valid', box, range)
    requires |inds| == |colors|
    ensures EntryHolds(outline, box, range, points', colors', inds')
  {
    var pts := OutlinePoints(outline);
    if pts != [] {
      OutlinePointsLength(outline);
      var n := |points|;
      assert inds'[range.first] == OutlineIndices(n, outline);
      assert colors'[range.first] == TextColor;
      assert points'[n..n + |pts|] == Shift(pts, box.low);
    }
  }

  /**
   * Storing a new glyph's outline keeps every cache entry holding, and the
   * new glyph's box and range, appended, hold its outline.
   */
  lemma EntriesStore(outlines: seq<GlyphOutline>, boxes: seq<Box>, ranges: seq<Range>, outline: GlyphOutline,
                     points: seq<Point>, colors: seq<Color>, inds: seq<PointIndices>, valid: bool,
                     points': seq<Point>, colors': seq<Color>, inds': seq<PointIndices>, valid': bool,
                     box: Box, range: Range)
    requires AllEntries(outlines, boxes, ranges, points, colors, inds)
    requires StoresOutline(outline, points, colors, inds, valid, points', colors', inds', valid', box, range)
    requires |inds| == |colors|
    ensures AllEntries(outlines + [outline], boxes + [box], ranges + [range], points', colors', inds')
  {
    StoresOutlineGrows(outline, points, colors, inds, valid, points', colors', inds', valid', box, range);
    EntryStored(outline, points, colors, inds, valid, points', colors', inds', valid', box, range);
    var outlines', boxes', ranges' := outlines + [outline], boxes + [box], ranges + [range];
    forall i | 0 <= i < |outlines'|
      ensures EntryHolds(outlines'[i], boxes'[i], ranges'[i], points', colors', inds')
    {
      if i < |outlines| {
        assert outlines'[i] == outlines[i] && boxes'[i] == boxes[i] && ranges'[i] == ranges[i];
        EntryGrows(outlines[i], boxes[i], ranges[i], points, colors, inds, points', colors', inds');
      }
    }
  }

  /** The point list, colour runs, point indices and run ranges of a cache. */
  datatype StaticData = StaticData(points: seq<Point>, colors: seq<Color>, inds: seq<PointIndices>,
                                   ranges: seq<Range>)

  /**
   * The static lists `d` once the outlines `outlines[m..n]` are stored after
   * them in order, glyph `i` with box `boxes[i]`: an outline with points
   * appends them moved by minus its box's low corner, one text-colour run
   * and the run's indices, and owns that run; an empty outline appends
   * nothing and owns no run.
   */
  function Layout(d: StaticData, outlines: seq<GlyphOutline>, boxes: seq<Box>, m: nat, n: nat): StaticData
    requires m <= n <= |outlines| && n <= |boxes|
    decreases n
  {
    if n == m then d
    else
      var e := Layout(d, outlines, boxes, m, n - 1);
      var pts := OutlinePoints(outlines[n - 1]);
      if pts == [] then e.(ranges := e.ranges + [Range(|e.colors|, |e.colors|)])
      else StaticData(e.points + Shift(pts, boxes[n - 1].low), e.colors + [TextColor],
                      e.inds + [OutlineIndices(|e.points|, outlines[n - 1])],
                      e.ranges + [Range(|e.colors|, |e.colors| + 1)])
  }

  /** Laying out outlines `m` to `n` does not depend on the outlines after them. */
  lemma {:induction false} LayoutPrefix(d: StaticData, outlines: seq<GlyphOutline>, boxes: seq<Box>,
                                        outlines': seq<GlyphOutline>, boxes': seq<Box>, m: nat, n: nat)
    requires m <= n <= |outlines| && n <= |boxes| && n <= |outlines'| && n <= |boxes'|
    requires outlines[..n] == outlines'[..n] && boxes[..n] == boxes'[..n]
    ensures Layout(d, outlines, boxes, m, n) == Layout(d, outlines', boxes', m, n)
    decreases n
  {
    if n > m {
      assert outlines[..n - 1] == outlines[..n][..n - 1] && outlines'[..n - 1] == outlines'[..n][..n - 1];
      assert boxes[..n - 1] == boxes[..n][..n - 1] && boxes'[..n - 1] == boxes'[..n][..n - 1];
      LayoutPrefix(d, outlines, boxes, outlines', boxes', m, n - 1);
      assert outlines[n - 1] == outlines[..n][n - 1] && outlines'[n - 1] == outlines'[..n][n - 1];
      assert boxes[n - 1] == boxes[..n][n - 1] && boxes'[n - 1] == boxes'[..n][n - 1];
    }
  }

  /**
   * Storing one more outline, as `StoresOutline` does, lays it out after
   * the outlines stored since `d`.
   */
  lemma LayoutStore(d: StaticData, outlines: seq<GlyphOutline>, boxes: seq<Box>, ranges: seq<Range>, m: nat,
                    outline: GlyphOutline,
                    points: seq<Point>, colors: seq<Color>, inds: seq<PointIndices>, valid: bool,
                    points': seq<Point>, colors': seq<Color>, inds': seq<PointIndices>, valid': bool,
                    box: Box, range: Range)
    requires m <= |outlines| == |boxes|
    requires Layout(d, outlines, boxes, m, |outlines|) == StaticData(points, colors, inds, ranges)
    requires StoresOutline(outline, points, colors, inds, valid, points', colors', inds', valid', box, range)
    ensures Layout(d, outlines + [outline], boxes + [box], m, |outlines| + 1)
            == StaticData(points', colors', inds', ranges + [range])
  {
    var n := |outlines|;
    assert (outlines + [outline])[..n] == outlines[..n] && (boxes + [box])[..n] == boxes[..n];
    LayoutPrefix(d, outlines, boxes, outlines + [outline], boxes + [box], m, n);
  }

  /**
   * One glyph drawn after those stored since `d`: a hit changes nothing,
   * and a miss stores its outline after theirs. Either way the static
   * lists stay laid out from `d`, and the upload flag stays set exactly
   * while no points were added since `d`.
   */
  lemma LayoutStep(d: StaticData, m: nat, valid0: bool, hit: bool, outline: GlyphOutline,
                   c: CacheState, valid: bool, c': CacheState, valid': bool)
    requires m <= |c.outlines| == |c.boxes| == |c.ranges| && |d.points| <= |c.points|
    requires StaticData(c.points, c.colors, c.inds, c.ranges) == Layout(d, c.outlines, c.boxes, m, |c.outlines|)
    requires valid == (valid0 && |c.points| == |d.points|)
    requires hit ==> c' == c && valid' == valid
    requires !hit ==>
               && c'.outlines == c.outlines + [outline]
               && |c'.boxes| == |c.boxes| + 1 && |c'.ranges| == |c.ranges| + 1
               && c.boxes <= c'.boxes && c.ranges <= c'.ranges
               && StoresOutline(outline, c.points, c.colors, c.inds, valid, c'.points, c'.colors, c'.inds, valid',
                                c'.boxes[|c.ranges|], c'.ranges[|c.ranges|])
    ensures |c'.outlines| == |c'.boxes| && |d.points| <= |c'.points|
    ensures StaticData(c'.points, c'.colors, c'.inds, c'.ranges) == Layout(d, c'.outlines, c'.boxes, m, |c'.outlines|)
    ensures valid' == (valid0 && |c'.points| == |d.points|)
  {
    if !hit {
      var n := |c.ranges|;
      assert c'.boxes == c.boxes + [c'.boxes[n]] && c'.ranges == c.ranges + [c'.ranges[n]];
      LayoutStore(d, c.outlines, c.boxes, c.ranges, m, outline, c.points, c.colors, c.inds, valid,
                  c'.points, c'.colors, c'.inds, valid', c'.boxes[n], c'.ranges[n]);
      StoresOutlineGrows(outline, c.points, c.colors, c.inds, valid, c'.points, c'.colors, c'.inds, valid',
                         c'.boxes[n], c'.ranges[n]);
    }
  }

  /**
   * The keys of `keys` that are not in `cached`, each where it first
   * appears: the order in which a run gives them their offsets.
   */
  function FirstSeen(cached: set<GlyphKey>, keys: seq<GlyphKey>): seq<GlyphKey>
    decreases |keys|
  {
    if keys == [] then []
    else
      var n := |keys| - 1;
      FirstSeen(cached, keys[..n]) + (if keys[n] in cached || keys[n] in keys[..n] then [] else [keys[n]])
  }

  /** One more key is added to the keys first seen exactly when it is neither cached nor seen before. */
  lemma FirstSeenAppend(cached: set<GlyphKey>, keys: seq<GlyphKey>, key: GlyphKey)
    ensures FirstSeen(cached, keys + [key])
            == FirstSeen(cached, keys) + (if key in cached || key in keys then [] else [key])
  {
    assert (keys + [key])[..|keys|] == keys;
  }

  /** The keys first seen are exactly the keys of `keys` not in `cached`. */
  lemma {:induction false} FirstSeenMembers(cached: set<GlyphKey>, keys: seq<GlyphKey>, key: GlyphKey)
    ensures key in FirstSeen(cached, keys) <==> key !in cached && key in keys
    decreases |keys|
  {
    if keys != [] {
      var n := |keys| - 1;
      FirstSeenMembers(cached, keys[..n], key);
      assert keys == keys[..n] + [keys[n]];
    }
  }

  /** The keys first seen in a prefix come first among those first seen in the whole. */
  lemma {:induction false} FirstSeenPrefix(cached: set<GlyphKey>, keys: seq<GlyphKey>, m: nat)
    requires m <= |keys|
    ensures FirstSeen(cached, keys[..m]) <= FirstSeen(cached, keys)
    decreases |keys|
  {
    if m == |keys| {
      assert keys[..m] == keys;
    } else {
      var n := |keys| - 1;
      assert keys[..n][..m] == keys[..m];
      FirstSeenPrefix(cached, keys[..n], m);
    }
  }

  /** The key at position `q` past `keys0` in a cache's key list has offset `|keys0| + q`. */
  lemma OffsetPast(table: map<GlyphKey, nat>, keys0: seq<GlyphKey>, keys: seq<GlyphKey>, seen: seq<GlyphKey>, q: nat)
    requires OffsetTable(table, keys) && keys == keys0 + seen && q < |seen|
    ensures seen[q] in table && table[seen[q]] == |keys0| + q
  {
    assert keys[|keys0| + q] == seen[q];
  }

  /**
   * A key first seen at `b` comes, among the keys first seen, right after
   * those first seen before `b`, and those include every uncached key
   * before `b`.
   */
  lemma FirstSeenAt(cached: set<GlyphKey>, keys: seq<GlyphKey>, b: nat)
    requires b < |keys| && keys[b] !in cached && keys[b] !in keys[..b]
    ensures var before := FirstSeen(cached, keys[..b]);
            && |before| < |FirstSeen(cached, keys)| && FirstSeen(cached, keys)[|before|] == keys[b]
            && before <= FirstSeen(cached, keys)
            && forall a :: 0 <= a < b && keys[a] !in cached ==> keys[a] in before
  {
    assert keys[..b + 1] == keys[..b] + [keys[b]];
    FirstSeenAppend(cached, keys[..b], keys[b]);
    FirstSeenPrefix(cached, keys, b + 1);
    forall a | 0 <= a < b && keys[a] !in cached ensures keys[a] in FirstSeen(cached, keys[..b]) {
      assert keys[..b][a] == keys[a];
      FirstSeenMembers(cached, keys[..b], keys[a]);
    }
  }

  /** A key first seen at `b` has an offset above that of every key before it. */
  lemma NewOffsetAfter(table0: map<GlyphKey, nat>, keys0: seq<GlyphKey>,
                       table: map<GlyphKey, nat>, keys: seq<GlyphKey>, run: seq<GlyphKey>, a: nat, b: nat)
    requires OffsetTable(table0, keys0) && OffsetTable(table, keys) && SubTable(table0, table)
    requires keys == keys0 + FirstSeen(table0.Keys, run)
    requires a < b < |run| && run[b] !in table0 && run[b] !in run[..b]
    ensures run[a] in table && run[b] in table && table[run[a]] < table[run[b]]
  {
    var seen, before := FirstSeen(table0.Keys, run), FirstSeen(table0.Keys, run[..b]);
    FirstSeenAt(table0.Keys, run, b);
    OffsetPast(table, keys0, keys, seen, |before|);
    if run[a] !in table0 {
      var q :| 0 <= q < |before| && before[q] == run[a];
      assert seen[q] == run[a];
      OffsetPast(table, keys0, keys, seen, q);
    }
  }

  /**
   * A cache whose key list continues `keys0` with the keys of `run` first
   * seen gives every new key of the run an offset past the old ones, and
   * gives it an offset above that of every glyph before its first
   * occurrence.
   */
  lemma NewOffsetsInOrder(table0: map<GlyphKey, nat>, keys0: seq<GlyphKey>,
                          table: map<GlyphKey, nat>, keys: seq<GlyphKey>, run: seq<GlyphKey>)
    requires OffsetTable(table0, keys0) && OffsetTable(table, keys) && SubTable(table0, table)
    requires keys == keys0 + FirstSeen(table0.Keys, run)
    ensures forall b :: 0 <= b < |run| && run[b] !in table0 ==> run[b] in table && |keys0| <= table[run[b]]
    ensures forall a, b :: 0 <= a < b < |run| && run[b] !in table0 && run[b] !in run[..b] ==>
              run[a] in table && run[b] in table && table[run[a]] < table[run[b]]
  {
    var seen := FirstSeen(table0.Keys, run);
    forall b | 0 <= b < |run| && run[b] !in table0
      ensures run[b] in table && |keys0| <= table[run[b]]
    {
      FirstSeenMembers(table0.Keys, run, run[b]);
      var q :| 0 <= q < |seen| && seen[q] == run[b];
      OffsetPast(table, keys0, keys, seen, q);
    }
    forall a, b | 0 <= a < b < |run| && run[b] !in table0 && run[b] !in run[..b]
      ensures run[a] in table && run[b] in table && table[run[a]] < table[run[b]]
    {
      NewOffsetAfter(table0, keys0, table, keys, run, a, b);
    }
  }

  /** The keys of the first `n` glyphs of a run, gathered one glyph at a time. */
  function RunKeySet(emSize: real, glyphs: seq<GlyphIndex>, n: nat): set<GlyphKey>
    requires n <= |glyphs|
  {
    if n == 0 then {} else RunKeySet(emSize, glyphs, n - 1) + {GlyphKey(emSize, glyphs[n - 1])}
  }

  /** A key is among those of the first `n` glyphs exactly when one of those glyphs has it. */
  lemma {:induction false} RunKeySetMembers(emSize: real, glyphs: seq<GlyphIndex>, n: nat, key: GlyphKey)
    requires n <= |glyphs|
    ensures key in RunKeySet(emSize, glyphs, n) <==> exists j :: 0 <= j < n && key == GlyphKey(emSize, glyphs[j])
  {
    if n > 0 {
      RunKeySetMembers(emSize, glyphs, n - 1, key);
      if key == GlyphKey(emSize, glyphs[n - 1]) {
        assert 0 <= n - 1 < n && key == GlyphKey(emSize, glyphs[n - 1]);
      }
    }
  }

  /**
   * Every key that `table` has and `table0` has not is one of `keys`, and
   * sits at an offset whose outline is `outlineOf` of the key.
   */
  predicate DrawnSince(table0: map<GlyphKey, nat>, table: map<GlyphKey, nat>, keys: set<GlyphKey>,
                       outlines: seq<GlyphOutline>, outlineOf: GlyphKey -> GlyphOutline)
  {
    forall k {:trigger outlineOf(k)} :: k in table && k !in table0 ==>
      k in keys && table[k] < |outlines| && outlines[table[k]] == outlineOf(k)
  }

  /**
   * Looking up `key` (which adds it when missing, with its outline at the
   * new offset) keeps every key added since `table0` with its outline, and
   * the keys added are those drawn so far and `key`.
   */
  lemma DrawnStep(table0: map<GlyphKey, nat>, table: map<GlyphKey, nat>, keys: set<GlyphKey>,
                  outlines: seq<GlyphOutline>, table': map<GlyphKey, nat>, outlines': seq<GlyphOutline>,
                  key: GlyphKey, outlineOf: GlyphKey -> GlyphOutline)
    requires DrawnSince(table0, table, keys, outlines, outlineOf)
    requires SubTable(table, table') && outlines <= outlines' && table'.Keys == table.Keys + {key}
    requires key !in table ==> table'[key] < |outlines'| && outlines'[table'[key]] == outlineOf(key)
    ensures DrawnSince(table0, table', keys + {key}, outlines', outlineOf)
  {
    forall k | k in table' && k !in table0
      ensures k in keys + {key} && table'[k] < |outlines'| && outlines'[table'[k]] == outlineOf(k)
    {
      var o := outlineOf(k);
      if k in table {
        assert outlines[table[k]] == o == outlines'[table[k]];
      }
    }
  }

  /**
   * Glyph `i` of a run is cached exactly when it was before the run or is
   * one of the glyphs before it, once the table holds every key of those
   * glyphs and gained no others since `table0`.
   */
  lemma CachedAtStep(table0: map<GlyphKey, nat>, table: map<GlyphKey, nat>, emSize: real, glyphs: seq<GlyphIndex>,
                     i: nat, outlines: seq<GlyphOutline>, outlineOf: GlyphKey -> GlyphOutline)
    requires i < |glyphs| && SubTable(table0, table)
    requires forall k :: 0 <= k < i ==> GlyphKey(emSize, glyphs[k]) in table
    requires DrawnSince(table0, table, RunKeySet(emSize, glyphs, i), outlines, outlineOf)
    ensures var key := GlyphKey(emSize, glyphs[i]);
            key in table <==> key in table0 || key in RunKeys(emSize, glyphs, i)
  {
    var key, run := GlyphKey(emSize, glyphs[i]), RunKeys(emSize, glyphs, i);
    if key in table && key !in table0 {
      assert outlineOf(key) == outlineOf(key);
      RunKeySetMembers(emSize, glyphs, i, key);
      var j :| 0 <= j < i && key == GlyphKey(emSize, glyphs[j]);
      assert run[j] == key;
    }
    if key in run {
      var j :| 0 <= j < i && run[j] == key;
    }
  }

  /**
   * Drawing glyph `i` of a run adds its key to those first seen exactly
   * when the table, which holds every key of the glyphs before it and
   * gained no others since `table0`, lacks it.
   */
  lemma FirstSeenStep(table0: map<GlyphKey, nat>, table: map<GlyphKey, nat>, emSize: real, glyphs: seq<GlyphIndex>,
                      i: nat, outlines: seq<GlyphOutline>, outlineOf: GlyphKey -> GlyphOutline)
    requires i < |glyphs| && SubTable(table0, table)
    requires forall k :: 0 <= k < i ==> GlyphKey(emSize, glyphs[k]) in table
    requires DrawnSince(table0, table, RunKeySet(emSize, glyphs, i), outlines, outlineOf)
    ensures var key := GlyphKey(emSize, glyphs[i]);
            FirstSeen(table0.Keys, RunKeys(emSize, glyphs, i + 1))
            == FirstSeen(table0.Keys, RunKeys(emSize, glyphs, i)) + (if key in table then [] else [key])
  {
    var key, run := GlyphKey(emSize, glyphs[i]), RunKeys(emSize, glyphs, i);
    assert RunKeys(emSize, glyphs, i + 1) == run + [key];
    FirstSeenAppend(table0.Keys, run, key);
    CachedAtStep(table0, table, emSize, glyphs, i, outlines, outlineOf);
  }

  /**
   * The cache `c`, with key list `keys` and upload flag `valid`, drawn by
   * the glyphs whose keys are `run` from `start`, `keys0` and `valid0`: the
   * keys first seen in the run follow the old ones, the static lists are
   * the old ones followed by the new outlines laid out in order, and the
   * flag stays set exactly while no points were added.
   */
  ghost predicate RunStored(start: CacheState, keys0: seq<GlyphKey>, valid0: bool, run: seq<GlyphKey>,
                            c: CacheState, keys: seq<GlyphKey>, valid: bool)
  {
    && keys == keys0 + FirstSeen(start.table.Keys, run)
    && valid == (valid0 && |c.points| == |start.points|)
    && |start.outlines| <= |c.outlines| == |c.boxes| && |start.points| <= |c.points|
    && StaticData(c.points, c.colors, c.inds, c.ranges)
       == Layout(StaticData(start.points, start.colors, start.inds, start.ranges),
                 c.outlines, c.boxes, |start.outlines|, |c.outlines|)
  }

  /** Before its first glyph, a run has stored nothing. */
  lemma RunStoredStart(c: CacheState, keys: seq<GlyphKey>, valid: bool, emSize: real, glyphs: seq<GlyphIndex>)
    requires |c.outlines| == |c.boxes|
    ensures RunStored(c, keys, valid, RunKeys(emSize, glyphs, 0), c, keys, valid)
  {
    assert RunKeys(emSize, glyphs, 0) == [];
  }

  /**
   * Drawing glyph `i` of a run, which a hit leaves the cache unchanged for
   * and a miss caches with its outline at the next offset, keeps the run
   * stored for the first `i + 1` glyphs.
   */
  lemma RunStoredStep(start: CacheState, keys0: seq<GlyphKey>, valid0: bool, emSize: real, glyphs: seq<GlyphIndex>,
                      i: nat, outlineOf: GlyphKey -> GlyphOutline,
                      c: CacheState, keys: seq<GlyphKey>, valid: bool, c': CacheState, keys': seq<GlyphKey>, valid': bool)
    requires i < |glyphs| && RunStored(start, keys0, valid0, RunKeys(emSize, glyphs, i), c, keys, valid)
    requires SubTable(start.table, c.table) && |c.boxes| == |c.ranges|
    requires forall k :: 0 <= k < i ==> GlyphKey(emSize, glyphs[k]) in c.table
    requires DrawnSince(start.table, c.table, RunKeySet(emSize, glyphs, i), c.outlines, outlineOf)
    requires var key := GlyphKey(emSize, glyphs[i]);
             && (key in c.table ==> c' == c && keys' == keys && valid' == valid)
             && (key !in c.table ==>
                   && keys' == keys + [key] && c'.outlines == c.outlines + [outlineOf(key)]
                   && |c'.boxes| == |c.boxes| + 1 && |c'.ranges| == |c.ranges| + 1
                   && c.boxes <= c'.boxes && c.ranges <= c'.ranges
                   && StoresOutline(outlineOf(key), c.points, c.colors, c.inds, valid,
                                    c'.points, c'.colors, c'.inds, valid', c'.boxes[|c.ranges|], c'.ranges[|c.ranges|]))
    ensures RunStored(start, keys0, valid0, RunKeys(emSize, glyphs, i + 1), c', keys', valid')
  {
    var key := GlyphKey(emSize, glyphs[i]);
    FirstSeenStep(start.table, c.table, emSize, glyphs, i, c.outlines, outlineOf);
    LayoutStep(StaticData(start.points, start.colors, start.inds, start.ranges), |start.outlines|, valid0,
               key in c.table, outlineOf(key), c, valid, c', valid');
  }

  /**
   * A run whose keys were all cached before it began stores nothing: the
   * static lists, the boxes and the upload flag are those it began with.
   */
  lemma RunStoredNothingNew(start: CacheState, keys0: seq<GlyphKey>, valid0: bool, emSize: real,
                            glyphs: seq<GlyphIndex>, c: CacheState, keys: seq<GlyphKey>, valid: bool)
    requires RunStored(start, keys0, valid0, RunKeys(emSize, glyphs, |glyphs|), c, keys, valid)
    requires |keys0| == |start.outlines| == |start.boxes| && |keys| == |c.outlines| && start.boxes <= c.boxes
    ensures RunKeySet(emSize, glyphs, |glyphs|) <= start.table.Keys ==>
              && c.points == start.points && c.colors == start.colors && c.inds == start.inds
              && c.ranges == start.ranges && c.boxes == start.boxes && valid == valid0
  {
    var run := RunKeys(emSize, glyphs, |glyphs|);
    var seen := FirstSeen(start.table.Keys, run);
    if RunKeySet(emSize, glyphs, |glyphs|) <= start.table.Keys && seen != [] {
      FirstSeenMembers(start.table.Keys, run, seen[0]);
      var j :| 0 <= j < |run| && run[j] == seen[0];
      RunKeySetMembers(emSize, glyphs, |glyphs|, seen[0]);
      assert false;
    }
  }

  /**
   * Once every key of a run is in `table`, and every key gained since
   * `table0` is a key of the run, the table's keys are those of `table0`
   * and those of the run.
   */
  lemma RunKeysAdded(table0: map<GlyphKey, nat>, table: map<GlyphKey, nat>, emSize: real, glyphs: seq<GlyphIndex>,
                     outlines: seq<GlyphOutline>, outlineOf: GlyphKey -> GlyphOutline)
    requires SubTable(table0, table)
    requires forall k :: 0 <= k < |glyphs| ==> GlyphKey(emSize, glyphs[k]) in table
    requires DrawnSince(table0, table, RunKeySet(emSize, glyphs, |glyphs|), outlines, outlineOf)
    ensures table.Keys == table0.Keys + RunKeySet(emSize, glyphs, |glyphs|)
  {
    forall key | key in RunKeySet(emSize, glyphs, |glyphs|) ensures key in table {
      RunKeySetMembers(emSize, glyphs, |glyphs|, key);
    }
    forall key | key in table && key !in table0 ensures key in RunKeySet(emSize, glyphs, |glyphs|) {
      assert outlineOf(key) == outlineOf(key);
    }
  }

  /**
   * The renderer's cache and per-frame lists. `pointBuffer`, `colorBuffer`,
   * `indexBuffer`, `boundBuffer` and `rangeBuffer` stand for the contents of
   * the GPU buffers of the same names.
   */
  class TextRenderer {
    var points: seq<Point>
    var pointIndices: seq<PointIndices>
    var colors: seq<Color>
    var boundingBoxes: seq<Box>
    var colorRanges: seq<Range>
    var glyphToOffset: map<GlyphKey, nat>
    /** The key cached at each offset, in the order the glyphs were first drawn. */
    ghost var cachedKeys: seq<GlyphKey>
    /** The outline each cached glyph had when it was first drawn, by offset. */
    ghost var outlines: seq<GlyphOutline>
    var currentBounds: seq<Box>
    var currentRanges: seq<Range>
    var valid: bool

    var pointBuffer: seq<Point>
    var colorBuffer: seq<Color>
    var indexBuffer: seq<PointIndices>
    var boundBuffer: seq<Box>
    var rangeBuffer: seq<Range>

    /**
     * Boxes and ranges are parallel, the map gives every cached glyph its
     * own offset into them, and every range lies within the colour runs.
     */
    ghost predicate TablesValid()
      reads this`boundingBoxes, this`colorRanges, this`glyphToOffset, this`cachedKeys, this`colors
    {
      && |boundingBoxes| == |colorRanges|
      && |cachedKeys| == |colorRanges|
      && OffsetTable(glyphToOffset, cachedKeys)
      && RangesWithin(colorRanges, |colors|)
    }

    /**
     * Colour runs and point indices come in pairs, point indices are ordered
     * within the point list, and while `valid` holds the static GPU buffers
     * hold the current static data.
     */
    ghost predicate RunsValid()
      reads this`pointIndices, this`colors, this`points, this`valid
      reads this`pointBuffer, this`colorBuffer, this`indexBuffer
    {
      && |pointIndices| == |colors|
      && IndicesWithin(pointIndices, |points|)
      && (valid ==> pointBuffer == points && colorBuffer == colors && indexBuffer == pointIndices)
    }

    /** Per-frame boxes and ranges come in pairs, and every per-frame range is a non-empty run range. */
    ghost predicate FrameValid()
      reads this`currentBounds, this`currentRanges, this`colors
    {
      |currentBounds| == |currentRanges| && NonEmptyWithin(currentRanges, |colors|)
    }

    /** Each cached glyph's box, range, run, indices and stored points are those of its outline. */
    ghost predicate OutlinesValid()
      reads this`outlines, this`boundingBoxes, this`colorRanges, this`points, this`colors, this`pointIndices
    {
      AllEntries(outlines, boundingBoxes, colorRanges, points, colors, pointIndices)
    }

    /** The cache invariant. */
    ghost predicate Valid()
      reads this
    {
      TablesValid() && RunsValid() && FrameValid() && OutlinesValid()
    }

    ghost function State(): CacheState
      reads this`glyphToOffset, this`boundingBoxes, this`colorRanges, this`points, this`colors, this`pointIndices
      reads this`outlines
    {
      CacheState(glyphToOffset, boundingBoxes, colorRanges, points, colors, pointIndices, outlines)
    }

    /** The cache only grows: cached glyphs keep their offsets and the static lists keep their prefixes. */
    twostate predicate Extends()
      reads this`glyphToOffset, this`boundingBoxes, this`colorRanges, this`points, this`colors, this`pointIndices
      reads this`outlines
    {
      Grows(CacheState(old(glyphToOffset), old(boundingBoxes), old(colorRanges), old(points), old(colors),
                       old(pointIndices), old(outlines)),
            CacheState(glyphToOffset, boundingBoxes, colorRanges, points, colors, pointIndices, outlines))
    }

    constructor ()
      ensures Valid() && !valid
      ensures points == [] && pointIndices == [] && colors == []
      ensures boundingBoxes == [] && colorRanges == [] && glyphToOffset == map[]
      ensures currentBounds == [] && currentRanges == []
    {
      points, pointIndices, colors := [], [], [];
      boundingBoxes, colorRanges, glyphToOffset := [], [], map[];
      cachedKeys, outlines := [], [];
      currentBounds, currentRanges := [], [];
      valid := false;
      pointBuffer, colorBuffer, indexBuffer, boundBuffer, rangeBuffer := [], [], [], [], [];
    }

    /**
     * `updateBuffers`: re-uploads the static data only when it changed since
     * the last upload, always uploads the per-frame lists, and returns how
     * many glyphs they held, leaving them empty for the next frame.
     */
    method UpdateBuffers() returns (count: nat)
      requires Valid()
      modifies this`pointBuffer, this`colorBuffer, this`indexBuffer, this`valid
      modifies this`boundBuffer, this`rangeBuffer, this`currentBounds, this`currentRanges
      ensures Valid() && valid
      ensures count == |old(currentRanges)| == |old(currentBounds)|
      ensures currentBounds == [] && currentRanges == []
      ensures boundBuffer == old(currentBounds) && rangeBuffer == old(currentRanges)
      ensures pointBuffer == points && colorBuffer == colors && indexBuffer == pointIndices
      ensures old(valid) ==> pointBuffer == old(pointBuffer) && colorBuffer == old(colorBuffer)
                             && indexBuffer == old(indexBuffer)
      ensures points == old(points) && pointIndices == old(pointIndices) && colors == old(colors)
      ensures boundingBoxes == old(boundingBoxes) && colorRanges == old(colorRanges)
      ensures glyphToOffset == old(glyphToOffset) && cachedKeys == old(cachedKeys) && outlines == old(outlines)
    {
      if !valid {
        pointBuffer := points;
        colorBuffer := colors;
        indexBuffer := pointIndices;
        valid := true;
      }
      boundBuffer := currentBounds;
      rangeBuffer := currentRanges;
      count := |currentRanges|;
      currentBounds := [];
      currentRanges := [];
    }

    /** Pushes the points of `arrays` onto the point list, one by one. */
    method AppendAll(arrays: seq<seq<Point>>)
      modifies this`points
      ensures points == old(points) + Flatten(arrays)
    {
      var i := 0;
      while i < |arrays|
        invariant 0 <= i <= |arrays|
        invariant points == old(points) + Flatten(arrays[..i])
      {
        var a := arrays[i];
        var j := 0;
        while j < |a|
          invariant 0 <= j <= |a|
          invariant points == old(points) + Flatten(arrays[..i]) + a[..j]
        {
          points := points + [a[j]];
          assert a[..j + 1] == a[..j] + [a[j]];
          j := j + 1;
        }
        assert arrays[..i + 1][..i] == arrays[..i];
        assert a[..|a|] == a;
        i := i + 1;
      }
      assert arrays[..|arrays|] == arrays;
    }

    /**
     * Appends a glyph's outline points and returns where its cubic,
     * quadratic and line points start and where they end.
     */
    method AppendOutline(outline: GlyphOutline) returns (inds: PointIndices)
      modifies this`points
      ensures points == old(points) + OutlinePoints(outline)
      ensures inds == OutlineIndices(|old(points)|, outline)
      ensures inds[3] == |points|
    {
      FlattenLength(outline.cubics, 4);
      FlattenLength(outline.quadratics, 3);
      FlattenLength(outline.lines, 2);
      var start := |points|;
      AppendAll(outline.cubics);
      var quadraticStart := |points|;
      AppendAll(outline.quadratics);
      var lineStart := |points|;
      AppendAll(outline.lines);
      inds := [start, quadraticStart, lineStart, |points|];
    }

    /** The tight bounding box of `points[from..to]`, by one pass over them. */
    method BoundingBox(from: nat, to: nat) returns (box: Box)
      requires from < to <= |points|
      ensures IsTightBox(points[from..to], box)
    {
      var low, high := points[from], points[from];
      ghost var xLow, yLow, xHigh, yHigh := from, from, from, from;
      var j := from + 1;
      while j < to
        invariant from < j <= to
        invariant forall k :: from <= k < j ==> Within(points[k], Box(low, high))
        invariant from <= xLow < j && points[xLow].x == low.x
        invariant from <= yLow < j && points[yLow].y == low.y
        invariant from <= xHigh < j && points[xHigh].x == high.x
        invariant from <= yHigh < j && points[yHigh].y == high.y
      {
        var p := points[j];
        if p.x < low.x { low := low.(x := p.x); xLow := j; }
        if p.y < low.y { low := low.(y := p.y); yLow := j; }
        if p.x > high.x { high := high.(x := p.x); xHigh := j; }
        if p.y > high.y { high := high.(y := p.y); yHigh := j; }
        j := j + 1;
      }
      box := Box(low, high);
      var pts := points[from..to];
      assert forall k :: from <= k < to ==> pts[k - from] == points[k];
      assert pts[xLow - from].x == box.low.x && pts[yLow - from].y == box.low.y;
      assert pts[xHigh - from].x == box.high.x && pts[yHigh - from].y == box.high.y;
    }

    /** Moves `points[from..to]` in place by minus `d`. */
    method Translate(from: nat, to: nat, d: Point)
      requires from <= to <= |points|
      modifies this`points
      ensures points == old(points)[..from] + Shift(old(points)[from..to], d) + old(points)[to..]
    {
      var j := from;
      while j < to
        invariant from <= j <= to
        invariant |points| == |old(points)|
        invariant forall k :: 0 <= k < |points| ==>
                    points[k] == if from <= k < j then Point(old(points)[k].x - d.x, old(points)[k].y - d.y)
                                 else old(points)[k]
      {
        points := points[j := Point(points[j].x - d.x, points[j].y - d.y)];
        j := j + 1;
      }
      assert points == old(points)[..from] + Shift(old(points)[from..to], d) + old(points)[to..];
    }

    /**
     * The point-list half of a cache miss: the outline points are appended
     * and, when there are any, translated so that their tight box starts at
     * the origin and covered by one new text-colour run. Returns the box
     * (before translation) and the range of runs the glyph owns.
     */
    method StoreOutline(outline: GlyphOutline) returns (box: Box, range: Range)
      requires RunsValid()
      modifies this`points, this`pointIndices, this`colors, this`valid
      ensures RunsValid()
      ensures StoresOutline(outline, old(points), old(colors), old(pointIndices), old(valid),
                            points, colors, pointIndices, valid, box, range)
    {
      var inds := AppendOutline(outline);
      if inds[3] > inds[0] {
        box := BoundingBox(inds[0], inds[3]);
        assert points[inds[0]..inds[3]] == OutlinePoints(outline);
        ghost var appended := points;
        Translate(inds[0], inds[3], box.low);
        assert appended[..inds[0]] == old(points) && appended[inds[3]..] == [];
        pointIndices := pointIndices + [inds];
        colors := colors + [TextColor];
        valid := false;
        range := Range(|colors| - 1, |colors|);
      } else {
        box := Box(Origin, Origin);
        range := Range(|colors|, |colors|);
      }
      StoresOutlineGrows(outline, old(points), old(colors), old(pointIndices), old(valid),
                         points, colors, pointIndices, valid, box, range);
    }

    /** Records a new glyph's box and range at the next offset. */
    method RecordGlyph(key: GlyphKey, ghost outline: GlyphOutline, box: Box, range: Range) returns (offset: nat)
      requires TablesValid() && RunsValid() && FrameValid()
      requires key !in glyphToOffset && range.first <= range.second <= |colors|
      requires AllEntries(outlines + [outline], boundingBoxes + [box], colorRanges + [range],
                          points, colors, pointIndices)
      modifies this`glyphToOffset, this`cachedKeys, this`outlines, this`boundingBoxes, this`colorRanges
      ensures Valid()
      ensures offset == |old(colorRanges)|
      ensures glyphToOffset == old(glyphToOffset)[key := offset] && cachedKeys == old(cachedKeys) + [key]
      ensures outlines == old(outlines) + [outline]
      ensures boundingBoxes == old(boundingBoxes) + [box] && colorRanges == old(colorRanges) + [range]
    {
      OffsetTableAdd(glyphToOffset, cachedKeys, key);
      RangesWithinAppend(colorRanges, |colors|, range);
      offset := |colorRanges|;
      glyphToOffset := glyphToOffset[key := offset];
      cachedKeys, outlines := cachedKeys + [key], outlines + [outline];
      boundingBoxes := boundingBoxes + [box];
      colorRanges := colorRanges + [range];
      assert points == old(points) && colors == old(colors) && pointIndices == old(pointIndices);
    }

    /**
     * A cache miss: the glyph gets the next offset, its outline is stored,
     * and its box (before translation) and range of runs are recorded there.
     */
    method AddGlyph(key: GlyphKey, outline: GlyphOutline) returns (offset: nat)
      requires Valid() && key !in glyphToOffset
      modifies this`points, this`pointIndices, this`colors, this`boundingBoxes, this`colorRanges
      modifies this`glyphToOffset, this`cachedKeys, this`outlines, this`currentBounds, this`currentRanges
      modifies this`valid
      ensures Valid() && Extends()
      ensures offset == |old(colorRanges)|
      ensures glyphToOffset == old(glyphToOffset)[key := offset] && cachedKeys == old(cachedKeys) + [key]
      ensures outlines == old(outlines) + [outline]
      ensures |colorRanges| == offset + 1 && |boundingBoxes| == offset + 1
      ensures StoresOutline(outline, old(points), old(colors), old(pointIndices), old(valid),
                            points, colors, pointIndices, valid, boundingBoxes[offset], colorRanges[offset])
      ensures currentBounds == old(currentBounds) && currentRanges == old(currentRanges)
    {
      var box, range := StoreOutline(outline);
      assert outlines == old(outlines) && boundingBoxes == old(boundingBoxes) && colorRanges == old(colorRanges);
      StoresOutlineGrows(outline, old(points), old(colors), old(pointIndices), old(valid),
                         points, colors, pointIndices, valid, box, range);
      RangesGrow(colorRanges, |old(colors)|, |colors|);
      RangesGrow(currentRanges, |old(colors)|, |colors|);
      EntriesStore(outlines, boundingBoxes, colorRanges, outline, old(points), old(colors), old(pointIndices),
                   old(valid), points, colors, pointIndices, valid, box, range);
      ghost var stored := (points, colors, pointIndices, valid);
      offset := RecordGlyph(key, outline, box, range);
      assert (points, colors, pointIndices, valid) == stored;
      assert boundingBoxes[offset] == box && colorRanges[offset] == range;
    }

    /**
     * The cache lookup of one glyph: a miss caches it first. Returns the
     * glyph's offset; a hit changes nothing.
     */
    method Lookup(key: GlyphKey, outline: GlyphOutline) returns (offset: nat)
      requires Valid()
      modifies this`points, this`pointIndices, this`colors, this`boundingBoxes, this`colorRanges
      modifies this`glyphToOffset, this`cachedKeys, this`outlines, this`currentBounds, this`currentRanges
      modifies this`valid
      ensures Valid() && Extends()
      ensures key in glyphToOffset && offset == glyphToOffset[key]
      ensures glyphToOffset.Keys == old(glyphToOffset).Keys + {key}
      ensures key in old(glyphToOffset) ==>
                && glyphToOffset == old(glyphToOffset) && points == old(points)
                && pointIndices == old(pointIndices) && colors == old(colors)
                && boundingBoxes == old(boundingBoxes) && colorRanges == old(colorRanges)
                && valid == old(valid) && outlines == old(outlines) && cachedKeys == old(cachedKeys)
      ensures key !in old(glyphToOffset) ==>
                && glyphToOffset == old(glyphToOffset)[key := |old(colorRanges)|]
                && cachedKeys == old(cachedKeys) + [key]
                && outlines == old(outlines) + [outline]
                && |colorRanges| == |old(colorRanges)| + 1 && |boundingBoxes| == |old(boundingBoxes)| + 1
                && StoresOutline(outline, old(points), old(colors), old(pointIndices), old(valid),
                                 points, colors, pointIndices, valid, boundingBoxes[offset], colorRanges[offset])
      ensures currentBounds == old(currentBounds) && currentRanges == old(currentRanges)
    {
      if key !in glyphToOffset {
        offset := AddGlyph(key, outline);
      } else {
        offset := glyphToOffset[key];
      }
    }

    /** Puts the glyph cached at `offset`, drawn at `pen`, on the per-frame lists when its range is non-empty. */
    method Push(offset: nat, pen: Point)
      requires Valid() && offset < |colorRanges|
      modifies this`currentBounds, this`currentRanges
      ensures Valid()
      ensures var b := boundingBoxes[offset];
              var p := Placement(Box(Offset(b.low, pen), Offset(b.high, pen)), colorRanges[offset]);
              && currentBounds == old(currentBounds) + BoundsOf(Visible([p]))
              && currentRanges == old(currentRanges) + RangesOf(Visible([p]))
    {
      var low, high := boundingBoxes[offset].low, boundingBoxes[offset].high;
      var range := colorRanges[offset];
      low := Point(low.x + pen.x, low.y + pen.y);
      high := Point(high.x + pen.x, high.y + pen.y);
      if range.second > range.first {
        currentBounds := currentBounds + [Box(low, high)];
        currentRanges := currentRanges + [range];
      }
      assert Visible([Placement(Box(low, high), range)]) == if range.second > range.first then [Placement(Box(low, high), range)] else [];
    }

    /**
     * One glyph of a monochrome run drawn at `pen`: a miss caches the glyph
     * first; then, if its range is non-empty, its box moved to the pen and
     * its range go onto the per-frame lists.
     */
    method DrawGlyph(key: GlyphKey, pen: Point, outline: GlyphOutline)
      requires Valid()
      modifies this`points, this`pointIndices, this`colors, this`boundingBoxes, this`colorRanges
      modifies this`glyphToOffset, this`cachedKeys, this`outlines, this`currentBounds, this`currentRanges
      modifies this`valid
      ensures Valid() && Extends()
      ensures key in glyphToOffset
      ensures glyphToOffset.Keys == old(glyphToOffset).Keys + {key}
      ensures key in old(glyphToOffset) ==>
                && glyphToOffset == old(glyphToOffset) && points == old(points)
                && pointIndices == old(pointIndices) && colors == old(colors)
                && boundingBoxes == old(boundingBoxes) && colorRanges == old(colorRanges)
                && valid == old(valid) && outlines == old(outlines) && cachedKeys == old(cachedKeys)
      ensures key !in old(glyphToOffset) ==>
                && glyphToOffset == old(glyphToOffset)[key := |old(colorRanges)|]
                && cachedKeys == old(cachedKeys) + [key]
                && outlines == old(outlines) + [outline]
                && |colorRanges| == |old(colorRanges)| + 1 && |boundingBoxes| == |old(boundingBoxes)| + 1
                && StoresOutline(outline, old(points), old(colors), old(pointIndices), old(valid),
                                 points, colors, pointIndices, valid, boundingBoxes[|old(colorRanges)|], colorRanges[|old(colorRanges)|])
      ensures currentBounds == old(currentBounds) + BoundsOf(Visible([PlacementAt(key, pen)]))
      ensures currentRanges == old(currentRanges) + RangesOf(Visible([PlacementAt(key, pen)]))
    {
      var offset := Lookup(key, outline);
      Push(offset, pen);
    }

    /** Where a cached glyph is drawn at `pen`, and with which runs. */
    ghost function PlacementAt(key: GlyphKey, pen: Point): Placement
      requires TablesValid() && key in glyphToOffset
      reads this`boundingBoxes, this`colorRanges, this`glyphToOffset, this`cachedKeys, this`colors
    {
      var b := boundingBoxes[glyphToOffset[key]];
      Placement(Box(Offset(b.low, pen), Offset(b.high, pen)), colorRanges[glyphToOffset[key]])
    }

    /**
     * What holds after the first `i` glyphs of a run were drawn from the
     * cache state `start` with the bounds and ranges lists `bounds` and
     * `ranges`, the cached keys `keys0` and the flag `valid0`.
     */
    ghost predicate Drawing(start: CacheState, bounds: seq<Box>, ranges: seq<Range>, keys0: seq<GlyphKey>, valid0: bool,
                            emSize: real, glyphs: seq<GlyphIndex>, baseX: int, baseY: int, advances: Option<seq<int>>,
                            outlineOf: GlyphKey -> GlyphOutline, i: nat)
      reads this
    {
      && Valid() && Grows(start, State())
      && i <= |glyphs| && DrawnSince(start.table, glyphToOffset, RunKeySet(emSize, glyphs, i), outlines, outlineOf)
      && RunDrawn(bounds, ranges, emSize, glyphs, baseX, baseY, advances, i,
                  glyphToOffset, boundingBoxes, colorRanges, currentBounds, currentRanges)
      && RunStored(start, keys0, valid0, RunKeys(emSize, glyphs, i), State(), cachedKeys, valid)
    }

    /**
     * Draws glyph `i` of a run at its pen position `x` and returns the pen
     * position of the next glyph; the cache keeps growing from `start`.
     */
    method DrawNext(ghost start: CacheState, ghost bounds: seq<Box>, ghost ranges: seq<Range>,
                    emSize: real, glyphs: seq<GlyphIndex>, baseX: int, baseY: int, advances: Option<seq<int>>,
                    i: nat, x: int, outlineOf: GlyphKey -> GlyphOutline, ghost valid0: bool,
                    ghost keys0: seq<GlyphKey>) returns (next: int)
      requires Drawing(start, bounds, ranges, keys0, valid0, emSize, glyphs, baseX, baseY, advances, outlineOf, i)
      requires i < |glyphs| && x == Pen(baseX, baseY, advances, i).x
      modifies this`points, this`pointIndices, this`colors, this`boundingBoxes, this`colorRanges
      modifies this`glyphToOffset, this`cachedKeys, this`outlines, this`currentBounds, this`currentRanges
      modifies this`valid
      ensures Drawing(start, bounds, ranges, keys0, valid0, emSize, glyphs, baseX, baseY, advances, outlineOf, i + 1)
      ensures next == Pen(baseX, baseY, advances, i + 1).x
    {
      var key := GlyphKey(emSize, glyphs[i]);
      ghost var before := State();
      ghost var bounds1, ranges1 := currentBounds, currentRanges;
      ghost var keys1, valid1 := cachedKeys, valid;
      DrawGlyph(key, Point(x, baseY), outlineOf(key));
      GrowsTransitive(start, before, State());
      RunStoredStep(start, keys0, valid0, emSize, glyphs, i, outlineOf, before, keys1, valid1, State(), cachedKeys, valid);
      DrawnStep(start.table, before.table, RunKeySet(emSize, glyphs, i), before.outlines, glyphToOffset, outlines,
                key, outlineOf);
      PenStep(baseX, baseY, advances, i);
      RunDrawnGrows(bounds, ranges, emSize, glyphs, baseX, baseY, advances, i,
                    before.table, before.boxes, before.ranges, glyphToOffset, boundingBoxes, colorRanges,
                    bounds1, ranges1);
      RunDrawnStep(bounds, ranges, emSize, glyphs, baseX, baseY, advances, i,
                   glyphToOffset, boundingBoxes, colorRanges, bounds1, ranges1, currentBounds, currentRanges);
      next := x;
      if advances.Some? {
        next := x + advances.value[i];
      }
    }

    /** Nothing of a run is drawn yet: the loop of `DrawGlyphRun` starts from the current state. */
    lemma StartDrawing(emSize: real, glyphs: seq<GlyphIndex>, baseX: int, baseY: int, advances: Option<seq<int>>,
                       outlineOf: GlyphKey -> GlyphOutline)
      requires Valid()
      requires advances.Some? ==> |advances.value| >= |glyphs|
      ensures Drawing(State(), currentBounds, currentRanges, cachedKeys, valid, emSize, glyphs, baseX, baseY, advances,
                      outlineOf, 0)
    {
      assert Placements(RunKeys(emSize, glyphs, 0), RunPens(baseX, baseY, advances, 0),
                        glyphToOffset, boundingBoxes, colorRanges) == [];
      RunStoredStart(State(), cachedKeys, valid, emSize, glyphs);
    }

    /**
     * The loop of `DrawGlyphRun`: draws the glyphs of a run in order, each
     * at the pen position the advances before it give.
     */
    method DrawGlyphs(ghost start: CacheState, ghost bounds: seq<Box>, ghost ranges: seq<Range>,
                      ghost keys0: seq<GlyphKey>, ghost valid0: bool,
                      baseX: int, baseY: int, emSize: real, glyphs: seq<GlyphIndex>, advances: Option<seq<int>>,
                      outlineOf: GlyphKey -> GlyphOutline)
      requires Drawing(start, bounds, ranges, keys0, valid0, emSize, glyphs, baseX, baseY, advances, outlineOf, 0)
      requires advances.Some? ==> |advances.value| >= |glyphs|
      modifies this`points, this`pointIndices, this`colors, this`boundingBoxes, this`colorRanges
      modifies this`glyphToOffset, this`cachedKeys, this`outlines, this`currentBounds, this`currentRanges
      modifies this`valid
      ensures Drawing(start, bounds, ranges, keys0, valid0, emSize, glyphs, baseX, baseY, advances, outlineOf,
                      |glyphs|)
    {
      var x := baseX;
      var i := 0;
      while i < |glyphs|
        invariant 0 <= i <= |glyphs| && x == Pen(baseX, baseY, advances, i).x
        invariant Drawing(start, bounds, ranges, keys0, valid0, emSize, glyphs, baseX, baseY, advances, outlineOf, i)
      {
        x := DrawNext(start, bounds, ranges, emSize, glyphs, baseX, baseY, advances, i, x, outlineOf, valid0, keys0);
        i := i + 1;
      }
    }

    /**
     * The monochrome branch of `DrawGlyphRun`: draws the glyphs of a run in
     * order, each at the pen position the advances before it give, using
     * `outlineOf` for the outline of a glyph that is not cached yet.
     */
    method DrawGlyphRun(baseX: int, baseY: int, emSize: real, glyphs: seq<GlyphIndex>, advances: Option<seq<int>>,
                        outlineOf: GlyphKey -> GlyphOutline)
      requires Valid()
      requires advances.Some? ==> |advances.value| >= |glyphs|
      modifies this`points, this`pointIndices, this`colors, this`boundingBoxes, this`colorRanges
      modifies this`glyphToOffset, this`cachedKeys, this`outlines, this`currentBounds, this`currentRanges
      modifies this`valid
      ensures Valid() && Extends()
      ensures forall i :: 0 <= i < |glyphs| ==> GlyphKey(emSize, glyphs[i]) in glyphToOffset
      ensures glyphToOffset.Keys == old(glyphToOffset).Keys + RunKeySet(emSize, glyphs, |glyphs|)
      ensures DrawnSince(old(glyphToOffset), glyphToOffset, RunKeySet(emSize, glyphs, |glyphs|), outlines, outlineOf)
      ensures var drawn := Visible(Placements(RunKeys(emSize, glyphs, |glyphs|),
                                              RunPens(baseX, baseY, advances, |glyphs|),
                                              glyphToOffset, boundingBoxes, colorRanges));
              currentBounds == old(currentBounds) + BoundsOf(drawn)
              && currentRanges == old(currentRanges) + RangesOf(drawn)
      ensures RunKeySet(emSize, glyphs, |glyphs|) <= old(glyphToOffset).Keys ==>
                && points == old(points) && colors == old(colors) && pointIndices == old(pointIndices)
                && boundingBoxes == old(boundingBoxes) && colorRanges == old(colorRanges) && valid == old(valid)
      ensures RunStored(CacheState(old(glyphToOffset), old(boundingBoxes), old(colorRanges), old(points), old(colors),
                                   old(pointIndices), old(outlines)),
                        old(cachedKeys), old(valid), RunKeys(emSize, glyphs, |glyphs|), State(), cachedKeys, valid)
      ensures var run := RunKeys(emSize, glyphs, |glyphs|);
              && (forall b :: 0 <= b < |run| && run[b] !in old(glyphToOffset) ==>
                    |old(colorRanges)| <= glyphToOffset[run[b]])
              && (forall a, b :: 0 <= a < b < |run| && run[b] !in old(glyphToOffset) && run[b] !in run[..b] ==>
                    glyphToOffset[run[a]] < glyphToOffset[run[b]])
    {
      ghost var start := State();
      StartDrawing(emSize, glyphs, baseX, baseY, advances, outlineOf);
      DrawGlyphs(start, currentBounds, currentRanges, cachedKeys, valid, baseX, baseY, emSize, glyphs, advances,
                 outlineOf);
      RunKeysAdded(start.table, glyphToOffset, emSize, glyphs, outlines, outlineOf);
      RunStoredNothingNew(start, old(cachedKeys), old(valid), emSize, glyphs, State(), cachedKeys, valid);
      NewOffsetsInOrder(start.table, old(cachedKeys), glyphToOffset, cachedKeys, RunKeys(emSize, glyphs, |glyphs|));
    }
  }
}
