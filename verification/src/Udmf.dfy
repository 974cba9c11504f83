// Doom maps: moving the map into a grid of blocks, and drawing its walls with
// Bresenham's line algorithm.
module Udmf {
  import opened Words

  const SCALE := 64  // map units per block

  /** 2^32 map units, in blocks. */
  const MAX_COORDINATE := 0x400_0000

  /** x and y of the Doom map; its y axis is the z axis of the block grid. */
  datatype Vertex = Vertex(x: Int32, y: Int32)

  datatype Sector = Sector(floor: Int32, ceiling: Int32)

  datatype Sidedef = Sidedef(sector: nat)

  /** A negative sideback stands for the missing back side. */
  datatype Linedef = Linedef(start: nat, end: nat, sidefront: nat, sideback: int)

  // ------------------------------------------------------------------
  // Normalisation
  // ------------------------------------------------------------------

  /** The lowest of the values, but never above zero. */
  function Lowest(values: seq<Int32>): (m: Int32)
    ensures m <= 0 && forall i :: 0 <= i < |values| ==> m <= values[i]
    ensures m == 0 || m in values
  {
    if values == [] then 0
    else
      var n := |values| - 1;
      var m := Lowest(values[..n]);
      if values[n] < m then values[n] else m
  }

  /** The highest of the values, but never below zero. */
  function Highest(values: seq<Int32>): (m: Int32)
    ensures 0 <= m && forall i :: 0 <= i < |values| ==> values[i] <= m
    ensures m == 0 || m in values
  {
    if values == [] then 0
    else
      var n := |values| - 1;
      var m := Highest(values[..n]);
      if values[n] > m then values[n] else m
  }

  function Xs(vs: seq<Vertex>): (r: seq<Int32>)
    ensures |r| == |vs| && forall i :: 0 <= i < |vs| ==> r[i] == vs[i].x
  {
    seq(|vs|, i requires 0 <= i < |vs| => vs[i].x)
  }

  function Ys(vs: seq<Vertex>): (r: seq<Int32>)
    ensures |r| == |vs| && forall i :: 0 <= i < |vs| ==> r[i] == vs[i].y
  {
    seq(|vs|, i requires 0 <= i < |vs| => vs[i].y)
  }

  function Floors(ss: seq<Sector>): (r: seq<Int32>)
    ensures |r| == |ss| && forall i :: 0 <= i < |ss| ==> r[i] == ss[i].floor
  {
    seq(|ss|, i requires 0 <= i < |ss| => ss[i].floor)
  }

  function Ceilings(ss: seq<Sector>): (r: seq<Int32>)
    ensures |r| == |ss| && forall i :: 0 <= i < |ss| ==> r[i] == ss[i].ceiling
  {
    seq(|ss|, i requires 0 <= i < |ss| => ss[i].ceiling)
  }

  /** How far everything is moved: just far enough that nothing is negative. */
  function Shift(values: seq<Int32>): (v: nat)
    ensures v <= 0x8000_0000 && forall i :: 0 <= i < |values| ==> 0 <= values[i] + v
  {
    -(Lowest(values) as int)
  }

  /** `(value + vector) / SCALE` with an unsigned vector: the sum never wraps. */
  function Moved(value: Int32, vector: nat): (r: Int32)
    requires 0 <= value + vector && vector <= 0x8000_0000
    ensures 0 <= r < MAX_COORDINATE && r * SCALE <= value + vector < (r + 1) * SCALE
  {
    (value + vector) / SCALE
  }

  function MovedVertex(v: Vertex, xVector: nat, yVector: nat): Vertex
    requires 0 <= v.x + xVector && xVector <= 0x8000_0000
    requires 0 <= v.y + yVector && yVector <= 0x8000_0000
  {
    Vertex(Moved(v.x, xVector), Moved(v.y, yVector))
  }

  /** Floors and ceilings move together, so their order is kept. */
  function MovedSector(s: Sector, vector: nat): (r: Sector)
    requires 0 <= s.floor + vector && s.floor <= s.ceiling && vector <= 0x8000_0000
    ensures 0 <= r.floor <= r.ceiling
  {
    Sector(Moved(s.floor, vector), Moved(s.ceiling, vector))
  }

  predicate Ordered(ss: seq<Sector>)
  {
    forall i :: 0 <= i < |ss| ==> ss[i].floor <= ss[i].ceiling
  }

  /** The parser swaps the heights of a sector whose ceiling is below its floor. */
  method AddSector(sectors: seq<Sector>, sector: Sector) returns (r: seq<Sector>)
    requires Ordered(sectors)
    ensures Ordered(r) && |r| == |sectors| + 1 && r[..|sectors|] == sectors
    ensures multiset{r[|sectors|].floor, r[|sectors|].ceiling} == multiset{sector.floor, sector.ceiling}
  {
    var s := sector;
    if s.ceiling < s.floor {
      s := Sector(s.ceiling, s.floor);
    }
    r := sectors + [s];
  }

  /** All of the map moved by the same vector, in map units, and scaled down to blocks. */
  ghost predicate ShiftedVertices(before: seq<Vertex>, after: seq<Vertex>, sx: nat, sy: nat)
  {
    |after| == |before|
    && (forall i :: 0 <= i < |before| ==>
          64 * after[i].x <= before[i].x + sx < 64 * (after[i].x + 1)
          && 64 * after[i].y <= before[i].y + sy < 64 * (after[i].y + 1))
    && (sx == 0 || exists i :: 0 <= i < |before| && before[i].x + sx == 0)
    && (sy == 0 || exists i :: 0 <= i < |before| && before[i].y + sy == 0)
  }

  ghost predicate ShiftedSectors(before: seq<Sector>, after: seq<Sector>, up: nat)
  {
    |after| == |before|
    && (forall i :: 0 <= i < |before| ==>
          64 * after[i].floor <= before[i].floor + up < 64 * (after[i].floor + 1)
          && 64 * after[i].ceiling <= before[i].ceiling + up < 64 * (after[i].ceiling + 1))
    && (up == 0 || exists i :: 0 <= i < |before| && before[i].floor + up == 0)
  }

  predicate InGrid(vs: seq<Vertex>, width: nat, length: nat)
  {
    forall i :: 0 <= i < |vs| ==> 0 <= vs[i].x < width && 0 <= vs[i].y < length
  }

  predicate HeightsInGrid(ss: seq<Sector>, height: nat)
  {
    forall i :: 0 <= i < |ss| ==> 0 <= ss[i].floor <= ss[i].ceiling < height
  }

  /** The vertices on the grid. */
  function MovedVertices(vs: seq<Vertex>): (r: seq<Vertex>)
    ensures |r| == |vs|
  {
    seq(|vs|, i requires 0 <= i < |vs| =>
      assert Xs(vs)[i] == vs[i].x && Ys(vs)[i] == vs[i].y;
      MovedVertex(vs[i], Shift(Xs(vs)), Shift(Ys(vs))))
  }

  function MovedSectors(ss: seq<Sector>): (r: seq<Sector>)
    requires Ordered(ss)
    ensures |r| == |ss|
  {
    seq(|ss|, i requires 0 <= i < |ss| =>
      assert Floors(ss)[i] == ss[i].floor;
      MovedSector(ss[i], Shift(Floors(ss))))
  }

  /** The grid is just large enough for the moved map. */
  function GridWidth(vs: seq<Vertex>): nat
  {
    Highest(Xs(vs)) + 1
  }

  function GridLength(vs: seq<Vertex>): nat
  {
    Highest(Ys(vs)) + 1
  }

  function GridHeight(ss: seq<Sector>): nat
  {
    Highest(Ceilings(ss)) + 1
  }

  lemma MovedInGrid(vs: seq<Vertex>)
    ensures InGrid(MovedVertices(vs), GridWidth(MovedVertices(vs)), GridLength(MovedVertices(vs)))
  {
    var moved := MovedVertices(vs);
    forall i | 0 <= i < |moved|
      ensures 0 <= moved[i].x < GridWidth(moved) && 0 <= moved[i].y < GridLength(moved)
    {
      assert Xs(moved)[i] == moved[i].x && Ys(moved)[i] == moved[i].y;
    }
  }

  lemma MovedHeightsInGrid(ss: seq<Sector>)
    requires Ordered(ss)
    ensures HeightsInGrid(MovedSectors(ss), GridHeight(MovedSectors(ss)))
  {
    var moved := MovedSectors(ss);
    forall i | 0 <= i < |moved|
      ensures 0 <= moved[i].floor <= moved[i].ceiling < GridHeight(moved)
    {
      assert Ceilings(moved)[i] == moved[i].ceiling;
    }
  }

  lemma MovedVerticesShifted(vs: seq<Vertex>)
    ensures exists sx: nat, sy: nat :: ShiftedVertices(vs, MovedVertices(vs), sx, sy)
  {
    var xs, ys, moved := Xs(vs), Ys(vs), MovedVertices(vs);
    forall i | 0 <= i < |vs|
      ensures 64 * moved[i].x <= vs[i].x + Shift(xs) < 64 * (moved[i].x + 1)
      ensures 64 * moved[i].y <= vs[i].y + Shift(ys) < 64 * (moved[i].y + 1)
    {
      assert xs[i] == vs[i].x && ys[i] == vs[i].y;
    }
    if Shift(xs) != 0 {
      var i :| 0 <= i < |xs| && xs[i] == Lowest(xs);
      assert vs[i].x + Shift(xs) == 0;
    }
    if Shift(ys) != 0 {
      var i :| 0 <= i < |ys| && ys[i] == Lowest(ys);
      assert vs[i].y + Shift(ys) == 0;
    }
    assert ShiftedVertices(vs, moved, Shift(xs), Shift(ys));
  }

  lemma MovedSectorsShifted(ss: seq<Sector>)
    requires Ordered(ss)
    ensures exists up: nat :: ShiftedSectors(ss, MovedSectors(ss), up)
  {
    var floors, moved := Floors(ss), MovedSectors(ss);
    forall i | 0 <= i < |ss|
      ensures 64 * moved[i].floor <= ss[i].floor + Shift(floors) < 64 * (moved[i].floor + 1)
      ensures 64 * moved[i].ceiling <= ss[i].ceiling + Shift(floors) < 64 * (moved[i].ceiling + 1)
    {
      assert floors[i] == ss[i].floor;
    }
    if Shift(floors) != 0 {
      var i :| 0 <= i < |floors| && floors[i] == Lowest(floors);
      assert ss[i].floor + Shift(floors) == 0;
    }
    assert ShiftedSectors(ss, moved, Shift(floors));
  }

  method FindShifts(vertices: array<Vertex>) returns (xVector: nat, yVector: nat)
    ensures xVector == Shift(Xs(vertices[..])) && yVector == Shift(Ys(vertices[..]))
  {
    ghost var xs, ys := Xs(vertices[..]), Ys(vertices[..]);
    var minX: Int32, minY: Int32 := 0, 0;
    for i := 0 to vertices.Length
      invariant minX == Lowest(xs[..i]) && minY == Lowest(ys[..i])
    {
      assert xs[..i + 1][..i] == xs[..i] && ys[..i + 1][..i] == ys[..i];
      if vertices[i].x < minX {
        minX := vertices[i].x;
      }
      if vertices[i].y < minY {
        minY := vertices[i].y;
      }
    }
    assert xs[..vertices.Length] == xs && ys[..vertices.Length] == ys;
    xVector, yVector := -(minX as int), -(minY as int);
  }

  /** Moves the vertices to the grid in place and finds its size. */
  method MoveVertices(vertices: array<Vertex>) returns (width: nat, length: nat)
    modifies vertices
    ensures vertices[..] == MovedVertices(old(vertices[..]))
    ensures exists sx: nat, sy: nat :: ShiftedVertices(old(vertices[..]), vertices[..], sx, sy)
    ensures width == GridWidth(vertices[..]) && length == GridLength(vertices[..])
    ensures InGrid(vertices[..], width, length)
  {
    hide Lowest, Moved, Shift, InGrid, Highest, Xs, Ys, ShiftedVertices;
    ghost var vs := vertices[..];
    ghost var moved := MovedVertices(vs);
    ghost var xs, ys := Xs(moved), Ys(moved);
    MovedInGrid(vs);
    HighestOfNone(xs);
    HighestOfNone(ys);
    var xVector, yVector := FindShifts(vertices);
    width, length := 0, 0;
    for i := 0 to vertices.Length
      invariant forall k :: 0 <= k < i ==> vertices[k] == moved[k]
      invariant forall k :: i <= k < vertices.Length ==> vertices[k] == vs[k]
      invariant width == Highest(xs[..i]) && length == Highest(ys[..i])
    {
      HighestNext(xs, i);
      HighestNext(ys, i);
      assert moved[i] == MovedVertex(vs[i], xVector, yVector);
      vertices[i] := MovedVertex(vertices[i], xVector, yVector);
      if vertices[i].x > width {
        width := vertices[i].x;
      }
      if vertices[i].y > length {
        length := vertices[i].y;
      }
    }
    assert xs[..vertices.Length] == xs && ys[..vertices.Length] == ys && vertices[..] == moved;
    width := width + 1;
    length := length + 1;
    MovedVerticesShifted(vs);
  }

  lemma HighestOfNone(values: seq<Int32>)
    ensures Highest(values[..0]) == 0
  {
  }

  lemma HighestNext(values: seq<Int32>, i: nat)
    requires i < |values|
    ensures Highest(values[..i + 1]) == if values[i] > Highest(values[..i]) then values[i] else Highest(values[..i])
  {
    assert values[..i + 1][..i] == values[..i];
  }

  method FindShiftUp(sectors: array<Sector>) returns (heightVector: nat)
    ensures heightVector == Shift(Floors(sectors[..]))
  {
    ghost var floors := Floors(sectors[..]);
    var minHeight: Int32 := 0;
    for i := 0 to sectors.Length
      invariant minHeight == Lowest(floors[..i])
    {
      assert floors[..i + 1][..i] == floors[..i];
      if sectors[i].floor < minHeight {
        minHeight := sectors[i].floor;
      }
    }
    assert floors[..sectors.Length] == floors;
    heightVector := -(minHeight as int);
  }

  /** Moves floors and ceilings in place and finds the height of the grid. */
  method MoveSectors(sectors: array<Sector>) returns (height: nat)
    requires Ordered(sectors[..])
    modifies sectors
    ensures Ordered(old(sectors[..])) && sectors[..] == MovedSectors(old(sectors[..]))
    ensures exists up: nat :: ShiftedSectors(old(sectors[..]), sectors[..], up)
    ensures height == GridHeight(sectors[..])
    ensures HeightsInGrid(sectors[..], height)
  {
    hide Lowest, Moved, Shift, HeightsInGrid, Highest, ShiftedSectors;
    ghost var ss := sectors[..];
    ghost var moved := MovedSectors(ss);
    ghost var ceilings := Ceilings(moved);
    MovedHeightsInGrid(ss);
    HighestOfNone(ceilings);
    var heightVector := FindShiftUp(sectors);
    height := 0;
    for i := 0 to sectors.Length
      invariant forall k :: 0 <= k < i ==> sectors[k] == moved[k]
      invariant forall k :: i <= k < sectors.Length ==> sectors[k] == ss[k]
      invariant height == Highest(ceilings[..i])
    {
      HighestNext(ceilings, i);
      assert moved[i] == MovedSector(ss[i], heightVector);
      sectors[i] := MovedSector(sectors[i], heightVector);
      if sectors[i].ceiling > height {
        height := sectors[i].ceiling;
      }
    }
    assert ceilings[..sectors.Length] == ceilings && sectors[..] == moved;
    height := height + 1;
    MovedSectorsShifted(ss);
  }

  // ------------------------------------------------------------------
  // Lines
  // ------------------------------------------------------------------

  /** Twice the error of plotting row j at column k, in units of 1/dx blocks. */
  function Err(dx: nat, dy: nat, k: int, j: int): int
  {
    2 * (dy * k - dx * j)
  }

  lemma ErrStep(dx: nat, dy: nat, k: int, j: int)
    ensures Err(dx, dy, 0, 0) == 0
    ensures Err(dx, dy, k + 1, j) == Err(dx, dy, k, j) + 2 * dy
    ensures Err(dx, dy, k + 1, j + 1) == Err(dx, dy, k, j) + 2 * dy - 2 * dx
  {
  }

  /** The row of column k: within half a block of the ideal line as long as the line is
      not steep, and on the diagonal otherwise. */
  predicate Plots(dx: nat, dy: nat, k: int, j: int)
  {
    if dx == 0 then j == 0
    else if dy <= dx then 0 < dx + Err(dx, dy, k, j) <= 2 * dx
    else j == k
  }

  lemma ErrRows(dx: nat, dy: nat, k: int, j: int, j': int)
    ensures Err(dx, dy, k, j) - Err(dx, dy, k, j') == 2 * ((j' - j) * dx)
  {
  }

  /** One row a column. */
  lemma PlotsOneRow(dx: nat, dy: nat, k: int, j: int, j': int)
    requires Plots(dx, dy, k, j) && Plots(dx, dy, k, j')
    ensures j == j'
  {
    hide Err;
    if dx > 0 && dy <= dx {
      ErrRows(dx, dy, k, j, j');
      SmallMultiple(j' - j, dx);
    }
  }

  /** From one column to the next the row stays or rises by one. */
  lemma PlotsRises(dx: nat, dy: nat, k: int, j: int, j': int)
    requires Plots(dx, dy, k, j) && Plots(dx, dy, k + 1, j')
    ensures j <= j' <= j + 1
  {
    hide Err;
    if dx > 0 && dy <= dx {
      ErrStep(dx, dy, k, j);
      ErrRows(dx, dy, k + 1, j, j');
      var e := Err(dx, dy, k, j);
      assert e + 2 * dy - Err(dx, dy, k + 1, j') == 2 * ((j' - j) * dx);
      RowBounds(j' - j, dx);
    }
  }

  lemma RowBounds(n: int, d: nat)
    requires d > 0 && 0 < d + n * d < 3 * d
    ensures 0 <= n <= 1
  {
  }

  /** The last plotted point is the end vertex exactly for the lines that run to the
      right, and upwards no faster than to the right. */
  lemma EndIsPlotted(start: Vertex, end: Vertex)
    requires start.x <= end.x
    ensures Plots(end.x - start.x, Abs(end.y - start.y), end.x - start.x, end.y - start.y)
            <==> 0 <= end.y - start.y <= end.x - start.x
  {
    var dx, dy, rise := end.x - start.x, Abs(end.y - start.y), end.y - start.y;
    if dx > 0 && dy <= dx {
      assert Err(dx, dy, dx, rise) == 2 * ((dy - rise) * dx);
      if Plots(dx, dy, dx, rise) {
        SmallMultiple(dy - rise, dx);
      }
    }
  }

  function Abs(v: int): (a: nat)
    ensures a == v || a == -v
  {
    if v < 0 then -v else v
  }

  lemma MulMonotonic(a: int, b: int, d: int)
    requires a <= b && d >= 0
    ensures a * d <= b * d
  {
  }

  lemma Products(dx: nat, dy: nat, k: int, j: int)
    ensures Err(dx, dy, k, j) == 2 * (k * dy - j * dx)
    ensures (dy + 1) * dx == dx * dy + dx
  {
  }

  /** The rows of a line stay between its start and its rise. */
  lemma PlotsInside(dx: nat, dy: nat, k: int, j: int)
    requires 0 <= k <= dx && Plots(dx, dy, k, j)
    ensures 0 <= j <= Min(dx, dy)
  {
    hide Err;
    if dx > 0 && dy <= dx {
      Products(dx, dy, k, j);
      MulMonotonic(0, k, dy);
      MulMonotonic(k, dx, dy);
      if j < 0 {
        MulMonotonic(j, -1, dx);
      } else if j > dy {
        MulMonotonic(dy + 1, j, dx);
      }
    }
  }

  /** The decision variable in front of column k, at row j. */
  function Decision(dx: nat, dy: nat, k: int, j: int): int
  {
    Err(dx, dy, k, j) + 2 * dy - dx
  }

  lemma DecisionStep(dx: nat, dy: nat, k: int, j: int)
    ensures Decision(dx, dy, 0, 0) == 2 * dy - dx
    ensures Decision(dx, dy, k + 1, j) == Decision(dx, dy, k, j) + 2 * dy
    ensures Decision(dx, dy, k + 1, j + 1) == Decision(dx, dy, k, j) + 2 * dy - 2 * dx
  {
    ErrStep(dx, dy, k, j);
  }

  lemma StartPlotted(dx: nat, dy: nat)
    ensures Plots(dx, dy, 0, 0)
  {
  }

  /** The invariant of the line loop: the decision variable carries the error, and so
      the next row is the one the line needs. */
  lemma PlotsNext(dx: nat, dy: nat, k: int, j: int)
    requires 0 <= k < dx && Plots(dx, dy, k, j)
    ensures Plots(dx, dy, k + 1, if Decision(dx, dy, k, j) > 0 then j + 1 else j)
  {
    ErrStep(dx, dy, k, j);
    if dy > dx {
      assert Err(dx, dy, k, k) == 2 * (k * (dy - dx));
      MulMonotonic(0, k, dy - dx);
    }
  }

  /** Cell (x, r, y) belongs to the wall over the line. */
  predicate OnWall(start: Vertex, end: Vertex, wallStart: int, wallEnd: int, x: int, r: int, y: int)
  {
    start.x <= x <= end.x && wallStart <= r <= wallEnd
    && Plots(Abs(end.x - start.x), Abs(end.y - start.y), x - start.x, y - start.y)
  }

  /** The last column reaches that far, so a line with room for less would leave the grid. */
  lemma LastRow(dx: nat, dy: nat)
    ensures Plots(dx, dy, dx, Min(dx, dy))
  {
  }

  /** The line has no cell outside the grid. */
  predicate StaysInside(start: Vertex, end: Vertex, length: nat)
  {
    start.x <= end.x ==> start.y + Min(Abs(end.x - start.x), Abs(end.y - start.y)) < length
  }

  /** The decision variable of a line to the right stays an int. */
  predicate StepsFit(dx: nat, dy: nat)
  {
    if dy <= dx then 2 * dx < 0x8000_0000 else Decision(dx, dy, dx + 1, dx + 1) < 0x8000_0000
  }

  lemma SteepDecision(dx: nat, dy: nat, k: int)
    ensures Decision(dx, dy, k, k) == 2 * (k * (dy - dx)) + 2 * dy - dx
  {
  }

  /** D fits an int in front of the column, and however the column changes it. */
  predicate IntSteps(dx: nat, dy: nat, D: int)
  {
    var next := if D > 0 then D - 2 * dx else D;
    -0x8000_0000 <= D < 0x8000_0000 && -0x8000_0000 <= next && next + 2 * dy < 0x8000_0000
    && 2 * dy < 0x8000_0000 && 2 * dx < 0x8000_0000
  }

  lemma FlatDecisionFits(dx: nat, dy: nat, k: int, j: int)
    requires 0 <= k <= dx && dy <= dx && Plots(dx, dy, k, j) && StepsFit(dx, dy)
    ensures -2 * dx <= Decision(dx, dy, k, j) <= 2 * dx
    ensures IntSteps(dx, dy, Decision(dx, dy, k, j))
  {
    if dx == 0 {
      assert Err(dx, dy, k, j) == 0;
    } else {
      hide Err;
    }
  }

  lemma SteepDecisionFits(dx: nat, dy: nat, k: int, j: int)
    requires 0 <= k <= dx < dy && Plots(dx, dy, k, j) && StepsFit(dx, dy)
    ensures IntSteps(dx, dy, Decision(dx, dy, k, j))
  {
    SteepStep(dx, dy, k, j);
    hide Decision, Plots;
    DecisionStep(dx, dy, 0, 0);
    SteepGrows(dx, dy, 0, k);
    SteepGrows(dx, dy, k + 1, dx + 1);
    SteepGrows(dx, dy, 0, dx + 1);
  }

  /** By two a column at least. */
  lemma SteepGrows(dx: nat, dy: nat, k: int, k': int)
    requires dx < dy && k <= k'
    ensures Decision(dx, dy, k', k') >= Decision(dx, dy, k, k) + 2 * (k' - k)
  {
    hide Decision;
    SteepDecision(dx, dy, k);
    SteepDecision(dx, dy, k');
    MulMonotonic(1, dy - dx, k' - k);
  }

  /** In a line that is not steep it is never more than twice the run. In a steep one it
      grows with every column, so it overflows exactly if it does behind the last one. */
  lemma DecisionFits(dx: nat, dy: nat, k: int, j: int)
    requires 0 <= k <= dx && Plots(dx, dy, k, j) && StepsFit(dx, dy)
    ensures IntSteps(dx, dy, Decision(dx, dy, k, j))
    ensures dy <= dx ==> -2 * dx <= Decision(dx, dy, k, j) <= 2 * dx
  {
    hide *;
    if dy <= dx {
      FlatDecisionFits(dx, dy, k, j);
    } else {
      SteepDecisionFits(dx, dy, k, j);
    }
  }

  lemma SteepStep(dx: nat, dy: nat, k: int, j: int)
    requires 0 <= k <= dx < dy && Plots(dx, dy, k, j)
    ensures Decision(dx, dy, k, j) == Decision(dx, dy, k, k)
    ensures Decision(dx, dy, k + 1, k + 1) == Decision(dx, dy, k, k) + 2 * dy - 2 * dx
  {
  }

  lemma StepsFitIff(dx: nat, dy: nat)
    ensures dy <= dx ==> (StepsFit(dx, dy) <==> dx < 0x4000_0000)
    ensures dx < dy ==>
              (StepsFit(dx, dy) <==> forall k :: 0 <= k <= dx + 1 ==> Decision(dx, dy, k, k) < 0x8000_0000)
  {
    if dy <= dx {
      return;
    }
    hide Decision;
    forall k | 0 <= k <= dx + 1
      ensures Decision(dx, dy, k, k) <= Decision(dx, dy, dx + 1, dx + 1)
    {
      SteepGrows(dx, dy, k, dx + 1);
    }
  }

  /** A steep line of a large map on which the int overflows. */
  lemma SteepLineOverflows()
    ensures !StepsFit(0x8000, 0x1_0000) && 0x1_0000 < MAX_COORDINATE
  {
  }

  /** The steps of a line, whichever way it runs; one to the left has none. */
  predicate LineFits(start: Vertex, end: Vertex)
  {
    var dx, dy := Abs(end.x - start.x), Abs(end.y - start.y);
    if start.x > end.x then 2 * dy < 0x8000_0000 else StepsFit(dx, dy)
  }

  /** The line loop: afterwards exactly the cells of the wall are set. */
  method DrawLine(blocks: array3<Int32>, start: Vertex, end: Vertex, wallStart: Int32, wallEnd: Int32)
    requires 0 <= start.x && 0 <= end.x < blocks.Length0
    requires 0 <= wallStart && wallEnd < blocks.Length1
    requires 0 <= start.y && 0 <= end.y && StaysInside(start, end, blocks.Length2) && LineFits(start, end)
    modifies blocks
    ensures forall x, r, y :: 0 <= x < blocks.Length0 && 0 <= r < blocks.Length1 && 0 <= y < blocks.Length2 ==>
              blocks[x, r, y] == if OnWall(start, end, wallStart, wallEnd, x, r, y) then 1 else old(blocks[x, r, y])
  {
    hide Decision, Err, StepsFit;
    var dx: Int32 := Abs(end.x - start.x);
    var dy: Int32 := Abs(end.y - start.y);
    DecisionStep(dx, dy, 0, 0);
    StartPlotted(dx, dy);
    if start.x <= end.x {
      DecisionFits(dx, dy, 0, 0);
    }
    var D: Int32 := 2 * dy - dx;
    var y: int := start.y;
    for x: int := start.x to if start.x <= end.x then end.x + 1 else start.x
      invariant start.x <= end.x ==> D == Decision(dx, dy, x - start.x, y - start.y)
      invariant x <= end.x ==> Plots(dx, dy, x - start.x, y - start.y)
      invariant forall px, r, py ::
                  0 <= px < blocks.Length0 && 0 <= r < blocks.Length1 && 0 <= py < blocks.Length2 ==>
                    blocks[px, r, py] ==
                      if px < x && OnWall(start, end, wallStart, wallEnd, px, r, py) then 1 else old(blocks[px, r, py])
    {
      PlotsInside(dx, dy, x - start.x, y - start.y);
      DrawColumn(blocks, start, end, wallStart, wallEnd, x, y);
      DecisionFits(dx, dy, x - start.x, y - start.y);
      DecisionStep(dx, dy, x - start.x, y - start.y);
      if x < end.x {
        PlotsNext(dx, dy, x - start.x, y - start.y);
      }
      if D > 0 {
        y := y + 1;
        D := D - 2 * dx;
      }
      D := D + 2 * dy;
    }
  }

  method DrawColumn(blocks: array3<Int32>, ghost start: Vertex, ghost end: Vertex,
                    wallStart: Int32, wallEnd: Int32, x: int, y: int)
    requires start.x <= x <= end.x && 0 <= x < blocks.Length0 && 0 <= y < blocks.Length2
    requires 0 <= wallStart && wallEnd < blocks.Length1
    requires Plots(Abs(end.x - start.x), Abs(end.y - start.y), x - start.x, y - start.y)
    modifies blocks
    ensures forall px, r, py ::
              0 <= px < blocks.Length0 && 0 <= r < blocks.Length1 && 0 <= py < blocks.Length2 ==>
                blocks[px, r, py] ==
                  if px == x && OnWall(start, end, wallStart, wallEnd, px, r, py) then 1 else old(blocks[px, r, py])
  {
    hide Plots;
    for row: int := wallStart to if wallStart <= wallEnd then wallEnd + 1 else wallStart
      invariant forall px, r, py ::
                  0 <= px < blocks.Length0 && 0 <= r < blocks.Length1 && 0 <= py < blocks.Length2 ==>
                    blocks[px, r, py] ==
                      if px == x && py == y && wallStart <= r < row then 1 else old(blocks[px, r, py])
    {
      blocks[x, row, y] := 1;
    }
    forall px, r, py | px == x && OnWall(start, end, wallStart, wallEnd, px, r, py)
      ensures py == y
    {
      PlotsOneRow(Abs(end.x - start.x), Abs(end.y - start.y), x - start.x, py - start.y, y - start.y);
    }
  }

  // ------------------------------------------------------------------
  // The walls of a map
  // ------------------------------------------------------------------

  predicate ValidLine(line: Linedef, vertices: nat, sectors: nat, sidedefs: seq<Sidedef>)
  {
    line.start < vertices && line.end < vertices
    && line.sidefront < |sidedefs| && sidedefs[line.sidefront].sector < sectors
    && (line.sideback >= 0 ==> line.sideback < |sidedefs| && sidedefs[line.sideback].sector < sectors)
  }

  /** From the lower floor to the higher ceiling of the sectors on both sides. */
  function WallSpan(line: Linedef, sectors: seq<Sector>, sidedefs: seq<Sidedef>): (s: Sector)
    requires line.sidefront < |sidedefs| && sidedefs[line.sidefront].sector < |sectors|
    requires line.sideback >= 0 ==> line.sideback < |sidedefs| && sidedefs[line.sideback].sector < |sectors|
  {
    var front := sectors[sidedefs[line.sidefront].sector];
    if line.sideback < 0 then front
    else
      var back := sectors[sidedefs[line.sideback].sector];
      Sector(Min(front.floor, back.floor), if back.ceiling > front.ceiling then back.ceiling else front.ceiling)
  }

  /** With two sides the span reaches exactly as low and as high as they do together. */
  lemma SpanOfBothSides(line: Linedef, sectors: seq<Sector>, sidedefs: seq<Sidedef>)
    requires line.sidefront < |sidedefs| && sidedefs[line.sidefront].sector < |sectors|
    requires line.sideback >= 0 ==> line.sideback < |sidedefs| && sidedefs[line.sideback].sector < |sectors|
    ensures var front, span := sectors[sidedefs[line.sidefront].sector], WallSpan(line, sectors, sidedefs);
            if line.sideback < 0 then span == front
            else
              var back := sectors[sidedefs[line.sideback].sector];
              span.floor <= front.floor && span.floor <= back.floor && span.floor in {front.floor, back.floor}
              && span.ceiling >= front.ceiling && span.ceiling >= back.ceiling
              && span.ceiling in {front.ceiling, back.ceiling}
  {
  }

  predicate ValidLines(linedefs: seq<Linedef>, vertices: nat, sectors: nat, sidedefs: seq<Sidedef>)
  {
    forall i :: 0 <= i < |linedefs| ==> ValidLine(linedefs[i], vertices, sectors, sidedefs)
  }

  /** Some linedef below n has the cell on its wall. */
  ghost predicate Covered(n: nat, vertices: seq<Vertex>, sectors: seq<Sector>, sidedefs: seq<Sidedef>,
                          linedefs: seq<Linedef>, x: int, r: int, y: int)
    requires n <= |linedefs| && ValidLines(linedefs, |vertices|, |sectors|, sidedefs)
  {
    exists i :: 0 <= i < n && CoveredBy(linedefs[i], vertices, sectors, sidedefs, x, r, y)
  }

  predicate CoveredBy(line: Linedef, vertices: seq<Vertex>, sectors: seq<Sector>, sidedefs: seq<Sidedef>,
                      x: int, r: int, y: int)
    requires ValidLine(line, |vertices|, |sectors|, sidedefs)
  {
    var span := WallSpan(line, sectors, sidedefs);
    OnWall(vertices[line.start], vertices[line.end], span.floor, span.ceiling, x, r, y)
  }

  predicate FirstOctant(start: Vertex, end: Vertex)
  {
    0 <= end.y - start.y <= end.x - start.x
  }

  /** A line of the first octant between vertices of the grid has all its cells in it. */
  lemma FirstOctantStaysInside(start: Vertex, end: Vertex, length: nat)
    requires FirstOctant(start, end) && 0 <= end.y < length
    ensures StaysInside(start, end, length)
  {
  }

  predicate AllStayInside(linedefs: seq<Linedef>, vertices: seq<Vertex>, length: nat)
    requires forall i :: 0 <= i < |linedefs| ==> linedefs[i].start < |vertices| && linedefs[i].end < |vertices|
  {
    forall i :: 0 <= i < |linedefs| ==> StaysInside(vertices[linedefs[i].start], vertices[linedefs[i].end], length)
  }

  /** No line makes the decision variable overflow. */
  predicate AllFit(linedefs: seq<Linedef>, vertices: seq<Vertex>)
    requires forall i :: 0 <= i < |linedefs| ==> linedefs[i].start < |vertices| && linedefs[i].end < |vertices|
  {
    forall i :: 0 <= i < |linedefs| ==> LineFits(vertices[linedefs[i].start], vertices[linedefs[i].end])
  }

  method DrawWalls(blocks: array3<Int32>, vertices: seq<Vertex>, sectors: seq<Sector>, sidedefs: seq<Sidedef>,
                   linedefs: seq<Linedef>)
    requires InGrid(vertices, blocks.Length0, blocks.Length2) && HeightsInGrid(sectors, blocks.Length1)
    requires ValidLines(linedefs, |vertices|, |sectors|, sidedefs)
    requires AllStayInside(linedefs, vertices, blocks.Length2) && AllFit(linedefs, vertices)
    modifies blocks
    ensures forall x, r, y :: 0 <= x < blocks.Length0 && 0 <= r < blocks.Length1 && 0 <= y < blocks.Length2 ==>
              blocks[x, r, y] ==
                if Covered(|linedefs|, vertices, sectors, sidedefs, linedefs, x, r, y) then 1 else old(blocks[x, r, y])
  {
    hide OnWall, StaysInside, LineFits;
    for i := 0 to |linedefs|
      invariant forall x, r, y :: 0 <= x < blocks.Length0 && 0 <= r < blocks.Length1 && 0 <= y < blocks.Length2 ==>
                  blocks[x, r, y] ==
                    if Covered(i, vertices, sectors, sidedefs, linedefs, x, r, y) then 1 else old(blocks[x, r, y])
    {
      var line := linedefs[i];
      assert ValidLine(line, |vertices|, |sectors|, sidedefs);
      var front := sectors[sidedefs[line.sidefront].sector];
      var wallStart, wallEnd := front.floor, front.ceiling;
      if line.sideback >= 0 {
        var back := sectors[sidedefs[line.sideback].sector];
        if back.floor < wallStart {
          wallStart := back.floor;
        }
        if back.ceiling > wallEnd {
          wallEnd := back.ceiling;
        }
      }
      assert Sector(wallStart, wallEnd) == WallSpan(line, sectors, sidedefs);
      DrawLine(blocks, vertices[line.start], vertices[line.end], wallStart, wallEnd);
    }
  }

  predicate InFirstOctant(linedefs: seq<Linedef>, vertices: seq<Vertex>)
    requires forall i :: 0 <= i < |linedefs| ==> linedefs[i].start < |vertices| && linedefs[i].end < |vertices|
  {
    forall i :: 0 <= i < |linedefs| ==> FirstOctant(vertices[linedefs[i].start], vertices[linedefs[i].end])
  }

  lemma MovedIsSmall(vs: seq<Vertex>)
    ensures GridWidth(MovedVertices(vs)) <= MAX_COORDINATE
  {
    hide Moved, Shift;
  }

  /** Maps with all their lines in the first octant are among those BuildGrid takes. */
  lemma FirstOctantMaps(linedefs: seq<Linedef>, vertices: seq<Vertex>, width: nat, length: nat)
    requires forall i :: 0 <= i < |linedefs| ==> linedefs[i].start < |vertices| && linedefs[i].end < |vertices|
    requires InGrid(vertices, width, length) && width <= MAX_COORDINATE && InFirstOctant(linedefs, vertices)
    ensures AllStayInside(linedefs, vertices, length) && AllFit(linedefs, vertices)
  {
    hide StaysInside;
    forall i | 0 <= i < |linedefs|
      ensures StaysInside(vertices[linedefs[i].start], vertices[linedefs[i].end], length)
      ensures LineFits(vertices[linedefs[i].start], vertices[linedefs[i].end])
    {
      FirstOctantStaysInside(vertices[linedefs[i].start], vertices[linedefs[i].end], length);
    }
  }

  /** The grid of a map: moved vertices and sectors, and every wall in place. */
  method BuildGrid(vertices: array<Vertex>, sectors: array<Sector>, sidedefs: seq<Sidedef>, linedefs: seq<Linedef>)
    returns (blocks: array3<Int32>)
    requires Ordered(sectors[..]) && vertices as object != sectors as object
    requires ValidLines(linedefs, vertices.Length, sectors.Length, sidedefs)
    requires AllStayInside(linedefs, MovedVertices(vertices[..]), GridLength(MovedVertices(vertices[..])))
    requires AllFit(linedefs, MovedVertices(vertices[..]))
    modifies vertices, sectors
    ensures fresh(blocks)
    ensures vertices[..] == MovedVertices(old(vertices[..]))
    ensures Ordered(old(sectors[..])) && sectors[..] == MovedSectors(old(sectors[..]))
    ensures exists sx: nat, sy: nat :: ShiftedVertices(old(vertices[..]), vertices[..], sx, sy)
    ensures exists up: nat :: ShiftedSectors(old(sectors[..]), sectors[..], up)
    ensures InGrid(vertices[..], blocks.Length0, blocks.Length2) && HeightsInGrid(sectors[..], blocks.Length1)
    ensures forall x, r, y :: 0 <= x < blocks.Length0 && 0 <= r < blocks.Length1 && 0 <= y < blocks.Length2 ==>
              blocks[x, r, y] ==
                if Covered(|linedefs|, vertices[..], sectors[..], sidedefs, linedefs, x, r, y) then 1 else 0
  {
    hide MovedVertices, MovedSectors, WallSpan, OnWall, GridLength, GridWidth, GridHeight;
    hide ShiftedVertices, ShiftedSectors;
    var width, length := MoveVertices(vertices);
    var height := MoveSectors(sectors);
    blocks := new Int32[width, height, length]((_, _, _) => 0);
    DrawWalls(blocks, vertices[..], sectors[..], sidedefs, linedefs);
  }
}
