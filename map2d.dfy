/**
 * The tile map of the 2D scene: a per-level grid of integer tile codes, the
 * respawn ledger of "live" pickups, and the weighted A* path finder that works
 * over the current level (App/Source/Scene2D/Map2D.cpp).
 *
 * Coordinates. A `Cell(x, y)` names column `x` and row `y`. The grid is stored
 * top row first; callers address it either directly (storage row) or with the
 * row inverted (`Rows() - y - 1`, so that y = 0 is the bottom row).
 */
module Map2D {

  /** A grid position: x is the column, y the row. */
  datatype Cell = Cell(x: int, y: int)

  /** The two heuristics of the path finder. */
  datatype Heuristic = Manhattan | Euclidean

  /** One came-from record of the A* search: position, parent and the f, g, h costs. */
  datatype Record = Record(pos: Cell, parent: Cell, f: nat, g: nat, h: nat)

  /** An entry of the open list: a position with its priority f. */
  datatype Entry = Entry(pos: Cell, f: nat)

  datatype Option<T> = None | Some(value: T)

  /** Number of neighbour offsets in use: 4 or 8 of the table below. */
  type DirCount = n: nat | n <= 8

  /**
   * The row addressing the callers use when they leave `bInvert` at its default.
   * The default sits in Map2D.h, which is not part of this model; the player
   * code treats y = 0 as the bottom row, which is inverted addressing.
   */
  const DEFAULT_INVERT := true

  /** Value a probe outside the grid reads: it behaves as a solid tile. */
  const OFF_GRID := 100

  /** Tile codes used by the game logic. */
  const LIVE := 5
  const LADDER_TOP := 30
  const SPIKE := 55

  /** Timestamp of a live pickup that is available. */
  const AVAILABLE: real := -10.0
  const LIVE_RESPAWN_TIME: real := 5.0

  const U32 := 0x1_0000_0000

  /** The eight neighbour offsets; the first four are the axis moves. */
  function Directions(): (d: seq<Cell>)
    ensures |d| == 8
  {
    [Cell(-1, 0), Cell(1, 0), Cell(0, 1), Cell(0, -1),
     Cell(-1, -1), Cell(1, 1), Cell(-1, 1), Cell(1, -1)]
  }

  function Plus(a: Cell, d: Cell): Cell
  {
    Cell(a.x + d.x, a.y + d.y)
  }

  function Delta(a: Cell, b: Cell): Cell
  {
    Cell(b.x - a.x, b.y - a.y)
  }

  function Abs(v: int): nat
  {
    if v < 0 then -v else v
  }

  function ManhattanDistance(a: Cell, b: Cell): nat
  {
    Abs(b.x - a.x) + Abs(b.y - a.y)
  }

  /** Diagonal neighbours: one column and one row apart. */
  predicate Diagonal(a: Cell, b: Cell)
  {
    Abs(b.x - a.x) == 1 && Abs(b.y - a.y) == 1
  }

  /**
   * A level as a value: its rows in inverted addressing (row 0 at the
   * bottom), all of one width. The player and the enemies reason about the
   * tiles around them through this view.
   */
  predicate Rect(v: seq<seq<int>>)
  {
    |v| >= 1 && forall r :: 0 <= r < |v| ==> |v[r]| == |v[0]|
  }

  function Width(v: seq<seq<int>>): nat
    requires |v| >= 1
  {
    |v[0]|
  }

  /** A cell of the view. */
  predicate OnView(v: seq<seq<int>>, c: Cell)
  {
    0 <= c.y < |v| && 0 <= c.x < |v[c.y]|
  }

  /** The tile at (row, col) of a view; OFF_GRID outside it. */
  function Tile(v: seq<seq<int>>, row: int, col: int): (t: int)
    ensures !OnView(v, Cell(col, row)) ==> t == OFF_GRID
  {
    if 0 <= row < |v| && 0 <= col < |v[row]| then v[row][col] else OFF_GRID
  }

  /** The cells of a view that hold a value. */
  function Occurrences(v: seq<seq<int>>, value: int): set<Cell>
  {
    set r, c | 0 <= r < |v| && 0 <= c < |v[r]| && v[r][c] == value :: Cell(c, r)
  }

  /** Every row of a view that holds the value also holds a background tile (a tile of at most 3). */
  predicate Placeable(v: seq<seq<int>>, value: int)
  {
    forall r, c :: 0 <= r < |v| && 0 <= c < |v[r]| && v[r][c] == value ==>
      exists c' :: 0 <= c' < |v[r]| && v[r][c'] <= 3
  }

  /**
   * Overwriting an occurrence of a value (above 3) with a background tile
   * removes exactly that occurrence and keeps the view placeable.
   */
  lemma Consumed(v: seq<seq<int>>, row: nat, col: nat, value: int, t: int)
    requires row < |v| && col < |v[row]| && v[row][col] == value && value > 3 && t <= 3 && Placeable(v, value)
    ensures Cell(col, row) in Occurrences(v, value)
    ensures Occurrences(v[row := v[row][col := t]], value) == Occurrences(v, value) - {Cell(col, row)}
    ensures |Occurrences(v[row := v[row][col := t]], value)| == |Occurrences(v, value)| - 1
    ensures Placeable(v[row := v[row][col := t]], value)
  {
    var w := v[row := v[row][col := t]];
    forall r, c | 0 <= r < |w| && 0 <= c < |w[r]| && w[r][c] == value
      ensures exists c' :: 0 <= c' < |w[r]| && w[r][c'] <= 3
    {
      assert v[r][c] == value;
      var c' :| 0 <= c' < |v[r]| && v[r][c'] <= 3;
      assert w[r][c'] <= 3;
    }
  }

  /** Writing any other value over an occurrence removes exactly that cell from the occurrences. */
  lemma Removed(v: seq<seq<int>>, row: nat, col: nat, value: int, t: int)
    requires row < |v| && col < |v[row]| && v[row][col] == value && t != value
    ensures Cell(col, row) in Occurrences(v, value)
    ensures Occurrences(v[row := v[row][col := t]], value) == Occurrences(v, value) - {Cell(col, row)}
    ensures |Occurrences(v[row := v[row][col := t]], value)| == |Occurrences(v, value)| - 1
  {
  }

  /** A view that differs from another at one place only is the other with that place replaced. */
  lemma Replaced(v0: seq<seq<int>>, v1: seq<seq<int>>, row: nat, col: nat, t: int)
    requires |v1| == |v0| && forall r :: 0 <= r < |v0| ==> |v1[r]| == |v0[r]|
    requires forall r, c :: 0 <= r < |v0| && 0 <= c < |v0[r]| && (r != row || c != col) ==> v1[r][c] == v0[r][c]
    requires row < |v0| && col < |v0[row]| && v1[row][col] == t
    ensures v1 == v0[row := v0[row][col := t]]
  {
    var w := v0[row := v0[row][col := t]];
    forall r | 0 <= r < |v0|
      ensures v1[r] == w[r]
    {
      assert |v1[r]| == |w[r]|;
      forall c | 0 <= c < |v1[r]|
        ensures v1[r][c] == w[r][c]
      {
      }
    }
  }

  /** A came-from record that was never written since the last reset. */
  function Blank(): Record
  {
    Record(Cell(0, 0), Cell(0, 0), 0, 0, 0)
  }

  /** The record of the start cell: a blank record whose parent is the start itself. */
  function StartRecord(s: Cell): Record
  {
    Blank().(parent := s)
  }

  /** An axis offset moves one cell; a diagonal offset moves two in Manhattan distance. */
  lemma DirectionLengths(i: nat)
    requires i < 8
    ensures ManhattanDistance(Cell(0, 0), Directions()[i]) == if i < 4 then 1 else 2
    ensures i >= 4 ==> Diagonal(Cell(0, 0), Directions()[i])
  {
    var d := Directions()[i];
    assert d.x == -1 || d.x == 0 || d.x == 1;
    assert d.y == -1 || d.y == 0 || d.y == 1;
  }

  // ---------------------------------------------------------------------------
  // Heuristics
  // ---------------------------------------------------------------------------

  /**
   * heuristic::manhattan: the weighted sum of the SIGNED deltas, with no
   * absolute value taken.
   */
  function ManhattanH(v1: Cell, v2: Cell, weight: int): (r: int)
    ensures v2.x >= v1.x && v2.y >= v1.y ==> r == weight * ManhattanDistance(v1, v2)
  {
    weight * ((v2.x - v1.x) + (v2.y - v1.y))
  }

  /**
   * With a positive weight the manhattan heuristic equals the textbook value
   * weight * (|dx| + |dy|) exactly when the target is up and to the right of
   * (or level with) the source.
   */
  lemma ManhattanTextbookIff(v1: Cell, v2: Cell, weight: int)
    requires weight > 0
    ensures ManhattanH(v1, v2, weight) == weight * ManhattanDistance(v1, v2)
            <==> v2.x >= v1.x && v2.y >= v1.y
  {
    var s := (v2.x - v1.x) + (v2.y - v1.y);
    var t := ManhattanDistance(v1, v2);
    if !(v2.x >= v1.x && v2.y >= v1.y) {
      assert s < t;
      assert weight * s < weight * t by {
        assert weight * t - weight * s == weight * (t - s);
      }
    }
  }

  /** Doubling the root of n / 4 brackets the root of n. */
  lemma SqrtStep(n: nat, q: nat)
    requires q * q <= n / 4 < (q + 1) * (q + 1)
    ensures (2 * q) * (2 * q) <= n < (2 * q + 2) * (2 * q + 2)
  {
    var m := n / 4;
    assert 4 * m <= n < 4 * m + 4;
    assert (2 * q) * (2 * q) == 4 * (q * q);
    assert (2 * q + 2) * (2 * q + 2) == 4 * ((q + 1) * (q + 1));
    assert (q + 1) * (q + 1) >= m + 1;
  }

  /** The integer square root: the largest r with r * r <= n. */
  function FloorSqrt(n: nat): (r: nat)
    ensures r * r <= n < (r + 1) * (r + 1)
  {
    if n < 4 then
      (if n == 0 then 0 else 1)
    else
      var q := FloorSqrt(n / 4);
      SqrtStep(n, q);
      if (2 * q + 1) * (2 * q + 1) <= n then 2 * q + 1 else 2 * q
  }

  /**
   * heuristic::euclidean before its cast: weight * sqrt(dx*dx + dy*dy),
   * truncated toward zero. For a non-negative weight this is the floor of
   * sqrt(weight^2 * d2); for a negative weight it is its negation.
   */
  function EuclideanH(v1: Cell, v2: Cell, weight: int): (r: int)
    ensures var d2 := (v2.x - v1.x) * (v2.x - v1.x) + (v2.y - v1.y) * (v2.y - v1.y);
            var a := Abs(r);
            a * a <= weight * weight * d2 < (a + 1) * (a + 1) &&
            (weight >= 0 ==> r >= 0) && (weight < 0 ==> r <= 0)
  {
    var dx := v2.x - v1.x;
    var dy := v2.y - v1.y;
    var d2: nat := dx * dx + dy * dy;
    var w2: nat := weight * weight;
    var m: int := FloorSqrt(w2 * d2);
    if weight >= 0 then m else -m
  }

  /** The unsigned 32-bit value of a (truncated) heuristic: two's-complement wrap. */
  function Unsigned32(v: int): (r: nat)
    ensures r < U32
    ensures 0 <= v < U32 ==> r == v
    ensures (r - v) % U32 == 0
  {
    v % U32
  }

  /** The h value the search uses: the chosen heuristic cast to unsigned (see HeuristicValues). */
  function HeuristicCost(kind: Heuristic, from: Cell, to: Cell, weight: int): (r: nat)
    ensures r < U32
  {
    Unsigned32(if kind == Manhattan then ManhattanH(from, to, weight) else EuclideanH(from, to, weight))
  }

  /**
   * The h value is zero at the target; the manhattan one is the weighted
   * distance for a target up and to the right; the euclidean one is the
   * floor of the weighted straight-line distance while that fits in 32 bits.
   */
  lemma HeuristicValues(kind: Heuristic, from: Cell, to: Cell, weight: int)
    ensures from == to ==> HeuristicCost(kind, from, to, weight) == 0
    ensures (kind == Manhattan && weight >= 0 && from.x <= to.x && from.y <= to.y &&
             weight * ManhattanDistance(from, to) < U32) ==>
              HeuristicCost(kind, from, to, weight) == weight * ManhattanDistance(from, to)
    ensures kind == Euclidean && weight >= 0 ==>
              var d2 := (to.x - from.x) * (to.x - from.x) + (to.y - from.y) * (to.y - from.y);
              var r := HeuristicCost(kind, from, to, weight);
              weight * weight * d2 < U32 ==> r * r <= weight * weight * d2 < (r + 1) * (r + 1)
  {
    if kind == Euclidean {
      if weight >= 0 {
        EuclideanFits(from, to, weight);
      }
      if from == to {
        EuclideanZero(from, weight);
      }
    }
  }

  /** A non-negative number whose square is at most n is zero or at most n. */
  lemma RootBelow(r: nat, n: int)
    requires r * r <= n
    ensures r == 0 || r <= n
  {
    if r >= 1 {
      MulAtLeast(r, r);
    }
  }

  /** The euclidean heuristic is zero at the target. */
  lemma EuclideanZero(p: Cell, weight: int)
    ensures EuclideanH(p, p, weight) == 0
  {
    var w2: nat := weight * weight;
    assert w2 * 0 == 0;
    assert FloorSqrt(0) == 0;
  }

  /** For a non-negative weight the euclidean heuristic fits 32 bits while its square does. */
  lemma EuclideanFits(from: Cell, to: Cell, weight: int)
    requires weight >= 0
    ensures var d2 := (to.x - from.x) * (to.x - from.x) + (to.y - from.y) * (to.y - from.y);
            weight * weight * d2 < U32 ==> EuclideanH(from, to, weight) < U32
  {
    var d2 := (to.x - from.x) * (to.x - from.x) + (to.y - from.y) * (to.y - from.y);
    RootBelow(EuclideanH(from, to, weight), weight * weight * d2);
  }

  /** The reference values: from (0,0) to (3,4) with weight 1, manhattan is 7 and euclidean 5. */
  lemma HeuristicExamples()
    ensures HeuristicCost(Manhattan, Cell(0, 0), Cell(3, 4), 1) == 7
    ensures HeuristicCost(Euclidean, Cell(0, 0), Cell(3, 4), 1) == 5
  {
  }

  // ---------------------------------------------------------------------------
  // Row-major layout
  // ---------------------------------------------------------------------------

  lemma MulAtLeast(a: int, b: int)
    requires a >= 1 && b >= 0
    ensures a * b >= b
  {
    assert a * b == (a - 1) * b + b;
  }

  /** Row-major indexing is a bijection between a rows x cols grid and [0, rows*cols). */
  lemma RowMajor(y: int, x: int, rows: int, cols: int)
    requires 0 <= y < rows && 0 <= x < cols
    ensures 0 <= y * cols + x < rows * cols
    ensures (y * cols + x) / cols == y && (y * cols + x) % cols == x
  {
    var k := y * cols + x;
    MulAtLeast(rows - y, cols);
    assert rows * cols == y * cols + (rows - y) * cols;
    var q := k / cols;
    var r := k % cols;
    assert k == q * cols + r;
    assert (q - y) * cols == x - r;
    if q > y {
      MulAtLeast(q - y, cols);
    } else if q < y {
      MulAtLeast(y - q, cols);
    }
  }

  /**
   * The top of the open list: an entry of least f, the earliest one among
   * equals (the heap's own tie order is not modelled).
   */
  function TopIndex(q: seq<Entry>): (k: nat)
    requires q != []
    ensures k < |q|
    ensures forall j :: 0 <= j < |q| ==> q[k].f <= q[j].f
    ensures forall j :: 0 <= j < k ==> q[j].f > q[k].f
  {
    if |q| == 1 then 0
    else
      var k' := TopIndex(q[1..]);
      if q[0].f <= q[1 + k'].f then 0 else 1 + k'
  }

  // ---------------------------------------------------------------------------
  // Search settings and steps
  // ---------------------------------------------------------------------------

  /** The settings of one search as PathFind stores them: endpoints, heuristic, weight, offsets in use. */
  datatype Query = Query(start: Cell, target: Cell, kind: Heuristic, weight: int, dirs: DirCount)

  /** The h value of a cell under a query. */
  function HCost(q: Query, c: Cell): nat
  {
    HeuristicCost(q.kind, c, q.target, q.weight)
  }

  /** b is a neighbour of a under the first `dirs` offsets. */
  predicate IsStep(dirs: DirCount, a: Cell, b: Cell)
  {
    Delta(a, b) in Directions()[..dirs]
  }

  /** A step moves one cell along an axis, or two in Manhattan distance diagonally. */
  lemma StepLength(dirs: DirCount, a: Cell, b: Cell)
    requires IsStep(dirs, a, b)
    ensures 1 <= ManhattanDistance(a, b) <= 2
    ensures dirs <= 4 ==> ManhattanDistance(a, b) == 1
    ensures ManhattanDistance(a, b) == 2 ==> Diagonal(a, b)
  {
    var d := Directions()[..dirs];
    var i :| 0 <= i < |d| && d[i] == Delta(a, b);
    DirectionLengths(i);
  }

  /** The neighbour in direction i is one step away. */
  lemma NeighbourIsStep(dirs: DirCount, cur: Cell, i: nat)
    requires i < dirs
    ensures IsStep(dirs, cur, Plus(cur, Directions()[i]))
  {
    assert Directions()[..dirs][i] == Delta(cur, Plus(cur, Directions()[i]));
  }

  /** A nonempty walk of neighbour steps from `from` (excluded) to `to`. */
  predicate IsWalk(dirs: DirCount, from: Cell, p: seq<Cell>, to: Cell)
  {
    p != [] && p[|p| - 1] == to && IsStep(dirs, from, p[0]) &&
    forall j :: 0 < j < |p| ==> IsStep(dirs, p[j - 1], p[j])
  }

  // ---------------------------------------------------------------------------
  // The map
  // ---------------------------------------------------------------------------

  /**
   * CMap2D: a levels x rows x cols buffer of tile codes, the current level,
   * the live-pickup ledger and the scratch state of the A* search.
   */
  class TileMap {
    /** Tile codes, indexed [level, storage row, column]. */
    const cells: array3<int>
    var curLevel: nat
    /** Live pickups keyed by (column, row): the time they were taken, or AVAILABLE. */
    var liveMap: map<(int, int), real>
    /** The scene clock as last passed to Update. */
    var time: real

    // A* state.
    var startPos: Cell
    var targetPos: Cell
    var weight: int
    var heuristic: Heuristic
    var nrOfDirections: DirCount
    var openList: seq<Entry>
    var cameFrom: seq<Record>
    var closed: seq<bool>
    /** Order in which cells were closed since the last reset (proof only). */
    ghost var closeRank: seq<nat>
    ghost var closeCount: nat

    function Levels(): nat { cells.Length0 }
    function Rows(): nat { cells.Length1 }
    function Cols(): nat { cells.Length2 }
    function Size(): nat { Rows() * Cols() }

    predicate InGrid(row: int, col: int)
    {
      0 <= row < Rows() && 0 <= col < Cols()
    }

    predicate CellInGrid(c: Cell)
    {
      InGrid(c.y, c.x)
    }

    /** The storage row of a caller's row: inverted addressing counts from the bottom. */
    function StorageRow(row: int, invert: bool): (r: int)
      requires 0 <= row < Rows()
      ensures 0 <= r < Rows()
      ensures invert ==> r + row == Rows() - 1
      ensures !invert ==> r == row
    {
      if invert then Rows() - row - 1 else row
    }

    predicate LevelOK()
      reads this`curLevel
    {
      curLevel < Levels()
    }

    /** A map with at least one tile and a current level that exists. */
    predicate Loaded()
      reads this`curLevel
    {
      LevelOK() && Rows() >= 1 && Cols() >= 1
    }

    /** Every key of the live-pickup ledger names a tile of the grid. */
    ghost predicate LedgerOK()
      reads this`liveMap
    {
      forall k | k in liveMap :: InGrid(k.1, k.0)
    }

    /** The search state: a neighbour count, in-grid endpoints and well-founded parent chains. */
    ghost predicate ScratchOK()
      reads this`curLevel, this`startPos, this`targetPos, this`nrOfDirections
      reads this`cameFrom, this`closed, this`closeRank, this`closeCount
    {
      Levels() >= 1 && Rows() >= 1 && Cols() >= 1 &&
      LevelOK() &&
      (nrOfDirections == 4 || nrOfDirections == 8) &&
      CellInGrid(startPos) && CellInGrid(targetPos) &&
      ChainsFounded(cameFrom, closed, closeRank, closeCount)
    }

    ghost predicate Valid()
      reads this`curLevel, this`liveMap, this`startPos, this`targetPos, this`nrOfDirections
      reads this`cameFrom, this`closed, this`closeRank, this`closeCount
    {
      ScratchOK() && LedgerOK()
    }

    constructor (levels: nat, rows: nat, cols: nat)
      requires levels >= 1 && rows >= 1 && cols >= 1
      ensures Valid() && fresh(cells)
      ensures Levels() == levels && Rows() == rows && Cols() == cols
      ensures curLevel == 0 && liveMap == map[] && time == 0.0 && nrOfDirections == 4 && weight == 1
      ensures forall l, r, c :: 0 <= l < levels && 0 <= r < rows && 0 <= c < cols ==> cells[l, r, c] == 0
      ensures openList == [] && closed == seq(rows * cols, _ => false)
      ensures cameFrom == seq(rows * cols, _ => Blank())
    {
      cells := new int[levels, rows, cols]((_, _, _) => 0);
      curLevel := 0;
      liveMap := map[];
      time := 0.0;
      startPos := Cell(0, 0);
      targetPos := Cell(0, 0);
      weight := 1;
      heuristic := Manhattan;
      nrOfDirections := 4;
      openList := [];
      cameFrom := seq(rows * cols, _ => Blank());
      closed := seq(rows * cols, _ => false);
      closeRank := seq(rows * cols, _ => 0);
      closeCount := 0;
    }

    /** ConvertTo1D: the row-major index of an in-grid cell. */
    function ConvertTo1D(c: Cell): (k: nat)
      requires CellInGrid(c)
      ensures k < Size()
      ensures k / Cols() == c.y && k % Cols() == c.x
    {
      RowMajor(c.y, c.x, Rows(), Cols());
      c.y * Cols() + c.x
    }

    /** Distinct cells never share a slot of the search arrays. */
    lemma ConvertTo1DInjective(a: Cell, b: Cell)
      requires CellInGrid(a) && CellInGrid(b) && a != b
      ensures ConvertTo1D(a) != ConvertTo1D(b)
    {
    }

    // -------------------------------------------------------------------------
    // Tile storage
    // -------------------------------------------------------------------------

    /** GetMapInfo: the tile at a caller's (row, col) of the current level. */
    function GetMapInfo(row: int, col: int, invert: bool): int
      requires LevelOK() && InGrid(row, col)
      reads this`curLevel, cells
    {
      cells[curLevel, StorageRow(row, invert), col]
    }

    /** Tile at a cell of the current level in inverted addressing; OFF_GRID outside. */
    function Probe(row: int, col: int): (v: int)
      requires LevelOK()
      reads this`curLevel, cells
      ensures InGrid(row, col) ==> v == GetMapInfo(row, col, DEFAULT_INVERT)
      ensures !InGrid(row, col) ==> v == OFF_GRID
    {
      if InGrid(row, col) then GetMapInfo(row, col, DEFAULT_INVERT) else OFF_GRID
    }

    /** A view shows the current level: same size, same tiles. */
    ghost predicate Shows(v: seq<seq<int>>)
      requires LevelOK()
      reads this`curLevel, cells
    {
      |v| == Rows() && (Rows() >= 1 ==> Rect(v) && Width(v) == Cols()) &&
      forall r, c :: InGrid(r, c) ==> v[r][c] == GetMapInfo(r, c, DEFAULT_INVERT)
    }

    /** Probing the map and reading a view that shows it agree everywhere, on and off the grid. */
    lemma ProbeShown(v: seq<seq<int>>, row: int, col: int)
      requires LevelOK() && Shows(v)
      ensures Probe(row, col) == Tile(v, row, col)
      ensures OnView(v, Cell(col, row)) <==> InGrid(row, col)
    {
    }

    /** The current level as a value, in inverted addressing. */
    ghost function View(): (v: seq<seq<int>>)
      requires LevelOK()
      reads this`curLevel, cells
      ensures |v| == Rows() && forall r :: 0 <= r < |v| ==> |v[r]| == Cols()
      ensures Shows(v)
    {
      var l := curLevel;
      seq(Rows(), (r: int) requires 0 <= r < Rows() reads cells =>
        seq(Cols(), (c: int) requires 0 <= c < Cols() && l < Levels() reads cells => cells[l, Rows() - 1 - r, c]))
    }

    /** A value occurs in the view of the current level exactly when it is stored somewhere in that level. */
    lemma OccurrencesStored(value: int)
      requires LevelOK()
      ensures Occurrences(View(), value) != {} <==>
                exists r, c :: 0 <= r < Rows() && 0 <= c < Cols() && cells[curLevel, r, c] == value
    {
      var v := View();
      if p :| p in Occurrences(v, value) {
        assert cells[curLevel, Rows() - 1 - p.y, p.x] == value;
      }
      if r, c :| 0 <= r < Rows() && 0 <= c < Cols() && cells[curLevel, r, c] == value {
        assert v[Rows() - 1 - r][c] == value;
        assert Cell(c, Rows() - 1 - r) in Occurrences(v, value);
      }
    }

    /** Every tile keeps its value except possibly the one at (level, row, col). */
    twostate predicate TilesUnchangedExcept(level: int, row: int, col: int)
      reads this, cells
    {
      forall l, r, c :: (0 <= l < cells.Length0 && 0 <= r < cells.Length1 && 0 <= c < cells.Length2 &&
        (l != level || r != row || c != col)) ==> cells[l, r, c] == old(cells[l, r, c])
    }

    /** SetMapInfo: writes one tile of the current level, nothing else. */
    method SetMapInfo(row: int, col: int, value: int, invert: bool)
      requires LevelOK() && InGrid(row, col)
      modifies cells
      ensures GetMapInfo(row, col, invert) == value
      ensures TilesUnchangedExcept(curLevel, StorageRow(row, invert), col)
    {
      cells[curLevel, StorageRow(row, invert), col] := value;
    }

    /** A level whose tiles did not change shows the same view. */
    twostate lemma ViewKept()
      requires old(LevelOK()) && unchanged(this) && unchanged(cells)
      ensures LevelOK() && View() == old(View())
    {
    }

    /** Setting a tile and reading it back gives the value set; the two addressings agree. */
    lemma InvertedAddressing(row: int, col: int)
      requires LevelOK() && InGrid(row, col)
      ensures InGrid(Rows() - row - 1, col)
      ensures GetMapInfo(row, col, true) == GetMapInfo(Rows() - row - 1, col, false)
    {
    }

    /** Storage position (r, c) comes before (r', c') in row-major order. */
    static predicate Before(r: int, c: int, r': int, c': int)
    {
      r < r' || (r == r' && c < c')
    }

    /**
     * The first column, from `from` on, of a row (inverted addressing) whose
     * tile is a background code (at most 3); Cols() when there is none.
     */
    function FirstBackground(row: int, from: nat): (col: nat)
      requires LevelOK() && 0 <= row < Rows() && from <= Cols()
      reads this`curLevel, cells
      ensures from <= col <= Cols()
      ensures col < Cols() ==> GetMapInfo(row, col, DEFAULT_INVERT) <= 3
      ensures forall c :: from <= c < col ==> GetMapInfo(row, c, DEFAULT_INVERT) > 3
      decreases Cols() - from
    {
      if from == Cols() then Cols()
      else if GetMapInfo(row, from, DEFAULT_INVERT) <= 3 then from
      else FirstBackground(row, from + 1)
    }

    /**
     * SetTileValue (of the player and of an enemy alike): the tile at
     * (row, col) takes the value of the first background tile of its row;
     * a row without one leaves the map unchanged.
     */
    method SetTileValue(row: int, col: int)
      requires LevelOK() && InGrid(row, col)
      modifies cells
      ensures old(FirstBackground(row, 0)) < Cols() ==>
                GetMapInfo(row, col, DEFAULT_INVERT) == old(GetMapInfo(row, FirstBackground(row, 0), DEFAULT_INVERT)) &&
                TilesUnchangedExcept(curLevel, StorageRow(row, DEFAULT_INVERT), col)
      ensures old(FirstBackground(row, 0)) == Cols() ==> unchanged(cells)
      ensures View() == old(View())[row := old(View())[row][col := GetMapInfo(row, col, DEFAULT_INVERT)]]
    {
      ghost var v0 := View();
      Replaced(v0, v0, row, col, v0[row][col]);
      var c := 0;
      while c < Cols()
        invariant c <= Cols() && FirstBackground(row, 0) == FirstBackground(row, c)
      {
        var v := GetMapInfo(row, c, DEFAULT_INVERT);
        if v <= 3 {
          SetMapInfo(row, col, v, DEFAULT_INVERT);
          Replaced(v0, View(), row, col, v);
          return;
        }
        c := c + 1;
      }
    }

    /**
     * FindValue: the first tile of the current level, in row-major storage
     * order, that holds `value`; the row is returned in the caller's addressing.
     */
    method FindValue(value: int, invert: bool) returns (found: bool, row: int, col: int)
      requires Valid()
      ensures found <==> exists r, c :: 0 <= r < Rows() && 0 <= c < Cols() && cells[curLevel, r, c] == value
      ensures found ==> InGrid(row, col) && GetMapInfo(row, col, invert) == value
      ensures found ==> forall r, c :: (0 <= r < Rows() && 0 <= c < Cols() &&
                Before(r, c, StorageRow(row, invert), col)) ==> cells[curLevel, r, c] != value
    {
      var r := 0;
      while r < Rows()
        invariant 0 <= r <= Rows()
        invariant forall r', c' :: 0 <= r' < r && 0 <= c' < Cols() ==> cells[curLevel, r', c'] != value
      {
        var c := 0;
        while c < Cols()
          invariant 0 <= c <= Cols()
          invariant forall c' :: 0 <= c' < c ==> cells[curLevel, r, c'] != value
        {
          if cells[curLevel, r, c] == value {
            found := true;
            row := if invert then Rows() - r - 1 else r;
            col := c;
            return;
          }
          c := c + 1;
        }
        r := r + 1;
      }
      found, row, col := false, 0, 0;
    }

    /** SetCurrentLevel: switches level only to an existing one. */
    method SetCurrentLevel(level: nat)
      requires Valid()
      modifies this`curLevel
      ensures Valid()
      ensures curLevel == if level < Levels() then level else old(curLevel)
    {
      if level < Levels() {
        curLevel := level;
      }
    }

    /** SetDiagonalMovement: 8 neighbour offsets with diagonals, else the 4 axis ones. */
    method SetDiagonalMovement(enable: bool)
      requires Valid()
      modifies this`nrOfDirections
      ensures Valid()
      ensures nrOfDirections == if enable then 8 else 4
    {
      nrOfDirections := if enable then 8 else 4;
    }

    // -------------------------------------------------------------------------
    // Loading and the live ledger
    // -------------------------------------------------------------------------

    /** Keys (column, row) of the live tiles of row r whose column is below `cols`. */
    static function LiveCellsOfRow(line: seq<int>, r: int, cols: int): set<(int, int)>
    {
      set c | 0 <= c < |line| && c < cols && line[c] == LIVE :: (c, r)
    }

    /** Keys (column, row) of the live tiles of the first n rows of a grid. */
    static function LiveCells(grid: seq<seq<int>>, n: nat): set<(int, int)>
      requires n <= |grid|
    {
      if n == 0 then {} else LiveCells(grid, n - 1) + LiveCellsOfRow(grid[n - 1], n - 1, |grid[n - 1]|)
    }

    /** The ledger after loading a grid: every new live tile is AVAILABLE; existing keys keep their time. */
    static function Seeded(m: map<(int, int), real>, grid: seq<seq<int>>): (m': map<(int, int), real>)
      ensures m'.Keys == m.Keys + LiveCells(grid, |grid|)
      ensures forall k | k in m :: m'[k] == m[k]
      ensures forall k | k in m' && k !in m :: m'[k] == AVAILABLE
    {
      (map k | k in LiveCells(grid, |grid|) :: AVAILABLE) + m
    }

    /** A key of LiveCells names a live tile of the grid. */
    static lemma {:induction false} LiveCellsAreLive(grid: seq<seq<int>>, n: nat, k: (int, int))
      requires n <= |grid| && k in LiveCells(grid, n)
      ensures 0 <= k.1 < n && 0 <= k.0 < |grid[k.1]| && grid[k.1][k.0] == LIVE
    {
      if k !in LiveCellsOfRow(grid[n - 1], n - 1, |grid[n - 1]|) {
        LiveCellsAreLive(grid, n - 1, k);
      }
    }

    /** m' is m with every key of `keys` that m lacks added as AVAILABLE. */
    static ghost predicate SeededBy(m: map<(int, int), real>, m': map<(int, int), real>, keys: set<(int, int)>)
    {
      m'.Keys == m.Keys + keys &&
      (forall k | k in m :: m'[k] == m[k]) &&
      (forall k | k in m' && k !in m :: m'[k] == AVAILABLE)
    }

    predicate WellShaped(grid: seq<seq<int>>)
    {
      |grid| == Rows() && forall r :: 0 <= r < |grid| ==> |grid[r]| == Cols()
    }

    /** Copies one line into storage row r of a level and seeds the ledger with its live tiles. */
    method LoadRow(line: seq<int>, level: nat, r: nat)
      requires Valid() && level < Levels() && r < Rows() && |line| == Cols()
      modifies cells, this`liveMap
      ensures Valid()
      ensures forall c :: 0 <= c < Cols() ==> cells[level, r, c] == line[c]
      ensures forall l, r', c :: (0 <= l < Levels() && 0 <= r' < Rows() && 0 <= c < Cols() &&
                (l != level || r' != r)) ==> cells[l, r', c] == old(cells[l, r', c])
      ensures SeededBy(old(liveMap), liveMap, LiveCellsOfRow(line, r, Cols()))
    {
      var c := 0;
      while c < Cols()
        invariant 0 <= c <= Cols()
        invariant Valid()
        invariant forall c' :: 0 <= c' < c ==> cells[level, r, c'] == line[c']
        invariant forall l, r', c' :: (0 <= l < Levels() && 0 <= r' < Rows() && 0 <= c' < Cols() &&
                    (l != level || r' != r || c' >= c)) ==> cells[l, r', c'] == old(cells[l, r', c'])
        invariant SeededBy(old(liveMap), liveMap, LiveCellsOfRow(line, r, c))
      {
        cells[level, r, c] := line[c];
        if line[c] == LIVE && (c, r) !in liveMap {
          liveMap := liveMap[(c, r) := AVAILABLE];
        }
        assert LiveCellsOfRow(line, r, c + 1) ==
               LiveCellsOfRow(line, r, c) + (if line[c] == LIVE then {(c, r)} else {});
        c := c + 1;
      }
    }

    /**
     * LoadMap: copies a parsed grid into a level, storage row by storage row,
     * and records each live tile as an AVAILABLE pickup unless the ledger
     * already has that key. A grid of the wrong shape is refused untouched.
     */
    method LoadMap(grid: seq<seq<int>>, level: nat) returns (ok: bool)
      requires Valid() && level < Levels()
      modifies cells, this`liveMap
      ensures Valid()
      ensures ok <==> WellShaped(grid)
      ensures ok ==> forall r, c :: 0 <= r < Rows() && 0 <= c < Cols() ==> cells[level, r, c] == grid[r][c]
      ensures forall l, r, c :: (0 <= l < Levels() && 0 <= r < Rows() && 0 <= c < Cols() &&
                (l != level || !ok)) ==> cells[l, r, c] == old(cells[l, r, c])
      ensures liveMap == if ok then Seeded(old(liveMap), grid) else old(liveMap)
    {
      if !WellShaped(grid) {
        return false;
      }
      var r := 0;
      while r < Rows()
        invariant 0 <= r <= Rows()
        invariant Valid()
        invariant forall r', c :: 0 <= r' < r && 0 <= c < Cols() ==> cells[level, r', c] == grid[r'][c]
        invariant forall l, r', c :: (0 <= l < Levels() && 0 <= r' < Rows() && 0 <= c < Cols() &&
                    (l != level || r' >= r)) ==> cells[l, r', c] == old(cells[l, r', c])
        invariant SeededBy(old(liveMap), liveMap, LiveCells(grid, r))
      {
        LoadRow(grid[r], level, r);
        r := r + 1;
      }
      assert SeededBy(old(liveMap), Seeded(old(liveMap), grid), LiveCells(grid, |grid|));
      return true;
    }

    /** A ledger entry whose pickup has been gone for longer than the respawn time. */
    static predicate Expired(taken: real, now: real)
    {
      taken != AVAILABLE && now > taken + LIVE_RESPAWN_TIME
    }

    /** The ledger after a respawn pass at time `now`. */
    static function Respawned(m: map<(int, int), real>, now: real): (m': map<(int, int), real>)
      ensures m'.Keys == m.Keys
      ensures forall k | k in m :: m'[k] == if Expired(m[k], now) then AVAILABLE else m[k]
    {
      map k | k in m :: if Expired(m[k], now) then AVAILABLE else m[k]
    }

    /** The ledger key of storage cell (r, c) of the current level under inverted addressing. */
    function KeyOf(r: int, c: int): (int, int)
    {
      (c, Rows() - 1 - r)
    }

    /** A respawn pass at `now` writes a live tile into storage cell (r, c). */
    ghost predicate RespawnsAt(m: map<(int, int), real>, now: real, r: int, c: int)
    {
      KeyOf(r, c) in m && Expired(m[KeyOf(r, c)], now)
    }

    /**
     * RespawnLives: every pickup taken more than LIVE_RESPAWN_TIME ago becomes
     * AVAILABLE again and its live tile is written back; nothing else changes.
     */
    method RespawnLives()
      requires Valid()
      modifies cells, this`liveMap
      ensures Valid()
      ensures liveMap == Respawned(old(liveMap), time)
      ensures forall l, r, c :: (0 <= l < Levels() && 0 <= r < Rows() && 0 <= c < Cols()) ==>
                cells[l, r, c] == if l == curLevel && RespawnsAt(old(liveMap), time, r, c) then LIVE
                                  else old(cells[l, r, c])
    {
      var todo := liveMap.Keys;
      ghost var m0 := liveMap;
      while todo != {}
        invariant Valid()
        invariant todo <= m0.Keys && liveMap.Keys == m0.Keys
        invariant forall k | k in m0 :: liveMap[k] == if k !in todo && Expired(m0[k], time) then AVAILABLE else m0[k]
        invariant forall l, r, c :: (0 <= l < Levels() && 0 <= r < Rows() && 0 <= c < Cols()) ==>
                    cells[l, r, c] == if l == curLevel && KeyOf(r, c) !in todo && RespawnsAt(m0, time, r, c) then LIVE
                                      else old(cells[l, r, c])
        decreases todo
      {
        var k :| k in todo;
        if liveMap[k] != AVAILABLE && time > liveMap[k] + LIVE_RESPAWN_TIME {
          liveMap := liveMap[k := AVAILABLE];
          SetMapInfo(k.1, k.0, LIVE, DEFAULT_INVERT);
        }
        todo := todo - {k};
      }
    }

    /** Stamps a live pickup as taken now (the player and the enemies write the ledger this way). */
    method StampLive(col: int, row: int)
      requires LedgerOK() && InGrid(row, col)
      modifies this`liveMap
      ensures LedgerOK()
      ensures liveMap == old(liveMap)[(col, row) := time]
    {
      liveMap := liveMap[(col, row) := time];
    }

    /** Update: records the scene clock and runs the respawn pass. */
    method Update(now: real)
      requires Valid()
      modifies cells, this`liveMap, this`time
      ensures Valid() && time == now
      ensures liveMap == Respawned(old(liveMap), now)
      ensures forall l, r, c :: (0 <= l < Levels() && 0 <= r < Rows() && 0 <= c < Cols()) ==>
                cells[l, r, c] == if l == curLevel && RespawnsAt(old(liveMap), now, r, c) then LIVE
                                  else old(cells[l, r, c])
    {
      time := now;
      RespawnLives();
    }

    /** A respawn pass is idempotent: a second pass at the same time changes nothing. */
    static lemma RespawnIdempotent(m: map<(int, int), real>, now: real)
      ensures Respawned(Respawned(m, now), now) == Respawned(m, now)
    {
    }

    // -------------------------------------------------------------------------
    // Passability
    // -------------------------------------------------------------------------

    /** isBlocked: the tile is solid, a code from 100 to 199. */
    predicate IsBlocked(row: int, col: int, invert: bool)
      requires LevelOK() && InGrid(row, col)
      reads this`curLevel, cells
    {
      100 <= GetMapInfo(row, col, invert) < 200
    }

    /**
     * isValid: an in-grid cell an enemy can occupy: the tile below is a ladder
     * top or a solid floor block (100 to 120), or the cell itself holds a
     * climbable or collectable tile (5 to 60). Rows are read inverted; the
     * bounds are tested first, so the bottom row has no tile below.
     */
    predicate IsValid(pos: Cell)
      requires LevelOK()
      reads this`curLevel, cells
    {
      CellInGrid(pos) &&
      ((pos.y >= 1 && (GetMapInfo(pos.y - 1, pos.x, true) == LADDER_TOP ||
                       100 <= GetMapInfo(pos.y - 1, pos.x, true) <= 120)) ||
       5 <= GetMapInfo(pos.y, pos.x, true) <= 60)
    }

    /** A cell the search may step onto. */
    predicate Passable(c: Cell)
      requires LevelOK()
      reads this`curLevel, cells
    {
      IsValid(c) && !IsBlocked(c.y, c.x, DEFAULT_INVERT)
    }

    /** A solid tile reads the same in both addressings and is never passable. */
    lemma BlockedAddressing(row: int, col: int)
      requires LevelOK() && InGrid(row, col)
      ensures InGrid(Rows() - row - 1, col)
      ensures IsBlocked(row, col, true) <==> IsBlocked(Rows() - row - 1, col, false)
      ensures IsBlocked(row, col, DEFAULT_INVERT) ==> !Passable(Cell(col, row))
    {
    }

    /**
     * A valid cell is on the grid; on the bottom row only the cell's own tile
     * (a code from 5 to 60) can make it valid; a cell above a ladder top or a
     * floor block is valid whatever it holds.
     */
    lemma ValidCell(pos: Cell)
      requires LevelOK()
      ensures IsValid(pos) ==> CellInGrid(pos)
      ensures CellInGrid(pos) && pos.y == 0 ==> (IsValid(pos) <==> 5 <= GetMapInfo(0, pos.x, true) <= 60)
      ensures CellInGrid(pos) && pos.y >= 1 ==>
                var below := GetMapInfo(pos.y - 1, pos.x, true);
                below == LADDER_TOP || 100 <= below <= 120 ==> IsValid(pos)
    {
    }

    /**
     * A passable cell is on the grid and not solid; a ladder or other code
     * from 5 to 60 is passable anywhere, and a background cell is passable
     * exactly when it stands on a ladder top or a floor block.
     */
    lemma PassableCell(c: Cell)
      requires LevelOK()
      ensures Passable(c) ==> CellInGrid(c) && !(100 <= GetMapInfo(c.y, c.x, DEFAULT_INVERT) < 200)
      ensures CellInGrid(c) && 5 <= GetMapInfo(c.y, c.x, DEFAULT_INVERT) <= 60 ==> Passable(c)
      ensures CellInGrid(c) && GetMapInfo(c.y, c.x, DEFAULT_INVERT) <= 3 ==>
                (Passable(c) <==> c.y >= 1 && (GetMapInfo(c.y - 1, c.x, true) == LADDER_TOP ||
                                               100 <= GetMapInfo(c.y - 1, c.x, true) <= 120))
    {
    }

    // -------------------------------------------------------------------------
    // A* bookkeeping, stated over explicit values of the scratch lists
    // -------------------------------------------------------------------------

    /** The slot of a cell in a row-major list. */
    function At<T>(s: seq<T>, c: Cell): T
      requires |s| == Size() && CellInGrid(c)
    {
      s[ConvertTo1D(c)]
    }

    /**
     * A record is its cell's own parent, an unwritten open record pointing at
     * (0, 0), or points at a closed cell that, if the record's cell is closed
     * too, was closed earlier.
     */
    ghost predicate ChainOK(came: seq<Record>, cl: seq<bool>, rank: seq<nat>, c: Cell)
      requires |came| == Size() && |cl| == Size() && |rank| == Size() && CellInGrid(c)
    {
      var p := At(came, c).parent;
      p == c ||
      (p == Cell(0, 0) && !At(cl, c)) ||
      (CellInGrid(p) && At(cl, p) && (At(cl, c) ==> At(rank, p) < At(rank, c)))
    }

    /** Following parents from any cell reaches a cell that is its own parent. */
    ghost predicate ChainsFounded(came: seq<Record>, cl: seq<bool>, rank: seq<nat>, count: nat)
    {
      Rows() >= 1 && Cols() >= 1 &&
      |came| == Size() && |cl| == Size() && |rank| == Size() &&
      (forall k :: 0 <= k < Size() && cl[k] ==> rank[k] < count) &&
      (forall c {:trigger ChainOK(came, cl, rank, c)} :: CellInGrid(c) ==> ChainOK(came, cl, rank, c))
    }

    /** Decreases along parent links. */
    ghost function ChainMeasure(came: seq<Record>, cl: seq<bool>, rank: seq<nat>, count: nat, c: Cell): nat
      requires ChainsFounded(came, cl, rank, count) && CellInGrid(c)
    {
      var p := At(came, c).parent;
      if p == c then 0
      else if At(cl, c) then At(rank, c)
      else if p == Cell(0, 0) then count + 1
      else count
    }

    lemma ChainStep(came: seq<Record>, cl: seq<bool>, rank: seq<nat>, count: nat, c: Cell)
      requires ChainsFounded(came, cl, rank, count) && CellInGrid(c) && At(came, c).parent != c
      ensures CellInGrid(At(came, c).parent)
      ensures ChainMeasure(came, cl, rank, count, At(came, c).parent) < ChainMeasure(came, cl, rank, count, c)
    {
      assert ChainOK(came, cl, rank, c);
      var p := At(came, c).parent;
      if CellInGrid(p) {
        assert ChainOK(came, cl, rank, p);
        if At(cl, p) {
          assert cl[ConvertTo1D(p)];
        }
      }
    }

    /**
     * A record as the search leaves it, without reference to tiles: unwritten
     * and open, the start record, or a link from a closed neighbour.
     */
    ghost predicate StepLinkOK(start: Cell, dirs: DirCount, came: seq<Record>, cl: seq<bool>, c: Cell)
      requires |came| == Size() && |cl| == Size() && CellInGrid(c)
    {
      var r := At(came, c);
      (r == Blank() && !At(cl, c)) ||
      (c == start && r == StartRecord(start)) ||
      (IsStep(dirs, r.parent, c) && CellInGrid(r.parent) && At(cl, r.parent))
    }

    ghost predicate StepLinked(start: Cell, dirs: DirCount, came: seq<Record>, cl: seq<bool>)
    {
      |came| == Size() && |cl| == Size() &&
      forall c {:trigger StepLinkOK(start, dirs, came, cl, c)} :: CellInGrid(c) ==> StepLinkOK(start, dirs, came, cl, c)
    }

    /**
     * BuildPath: the chain of parents from the target back to the first cell
     * that is its own parent (excluded), in walking order. A one-cell path
     * survives only if the target is an axis neighbour of the start.
     */
    method BuildPath() returns (path: seq<Cell>)
      requires Valid()
      ensures At(cameFrom, targetPos).parent == targetPos ==> path == []
      ensures path != [] ==> path[|path| - 1] == targetPos
      ensures |path| == 1 ==> ManhattanDistance(startPos, targetPos) <= 1
      ensures forall c :: c in path ==> CellInGrid(c) && At(cameFrom, c).parent != c
      ensures forall j :: 0 <= j < |path| - 1 ==> path[j] == At(cameFrom, path[j + 1]).parent
      ensures StepLinked(startPos, nrOfDirections, cameFrom, closed) && At(cameFrom, targetPos) != Blank() ==>
                if path == [] then startPos == targetPos || (nrOfDirections == 8 && Diagonal(startPos, targetPos))
                else IsWalk(nrOfDirections, startPos, path, targetPos)
    {
      var cur := targetPos;
      path := [];
      ghost var linked := StepLinked(startPos, nrOfDirections, cameFrom, closed) && At(cameFrom, targetPos) != Blank();
      while At(cameFrom, cur).parent != cur
        invariant CellInGrid(cur)
        invariant forall c :: c in path ==> CellInGrid(c) && At(cameFrom, c).parent != c
        invariant forall j :: 0 <= j < |path| - 1 ==> path[j] == At(cameFrom, path[j + 1]).parent
        invariant path == [] ==> cur == targetPos
        invariant path != [] ==> path[|path| - 1] == targetPos && cur == At(cameFrom, path[0]).parent
        invariant linked && path != [] ==>
                    At(closed, cur) && IsStep(nrOfDirections, cur, path[0]) &&
                    forall j :: 0 < j < |path| ==> IsStep(nrOfDirections, path[j - 1], path[j])
        decreases ChainMeasure(cameFrom, closed, closeRank, closeCount, cur)
      {
        ChainStep(cameFrom, closed, closeRank, closeCount, cur);
        if linked {
          assert StepLinkOK(startPos, nrOfDirections, cameFrom, closed, cur);
        }
        path := [cur] + path;
        cur := At(cameFrom, cur).parent;
      }
      if linked {
        assert StepLinkOK(startPos, nrOfDirections, cameFrom, closed, cur);
        if path == [] {
          assert targetPos == startPos by {
            if At(cameFrom, cur) != StartRecord(startPos) {
              StepLength(nrOfDirections, cur, cur);
            }
          }
        } else if cur != startPos {
          StepLength(nrOfDirections, cur, cur);
        }
      }
      if |path| == 1 {
        // Both branches of the offset count clear a path whose single cell is
        // more than one Manhattan step from the start.
        if nrOfDirections == 4 {
          if ManhattanDistance(startPos, targetPos) > 1 {
            path := [];
          }
        } else {
          if ManhattanDistance(startPos, targetPos) > 2 {
            path := [];
          } else if ManhattanDistance(startPos, targetPos) > 1 {
            path := [];
          }
        }
        if linked && path == [] {
          StepLength(nrOfDirections, startPos, targetPos);
        }
      }
    }

    // -------------------------------------------------------------------------
    // The search
    // -------------------------------------------------------------------------

    /** The settings of the search in progress. */
    function CurrentQuery(): Query
      reads this`startPos, this`targetPos, this`heuristic, this`weight, this`nrOfDirections
    {
      Query(startPos, targetPos, heuristic, weight, nrOfDirections)
    }

    /** The h value of a cell under the current search settings. */
    function H(c: Cell): nat
      reads this`heuristic, this`targetPos, this`weight
    {
      HeuristicCost(heuristic, c, targetPos, weight)
    }

    /** The cells of the current level the search may step onto. */
    ghost function PassableSet(): (pass: set<Cell>)
      requires LevelOK()
      reads this`curLevel, cells
      ensures forall c :: c in pass <==> Passable(c)
    {
      set x, y | 0 <= y < Rows() && 0 <= x < Cols() && Passable(Cell(x, y)) :: Cell(x, y)
    }

    /** The target can be reached from the start by neighbour steps over passable cells. */
    ghost predicate Reachable(start: Cell, target: Cell)
      requires LevelOK()
      reads this`curLevel, cells, this`nrOfDirections
    {
      exists p :: IsWalk(nrOfDirections, start, p, target) && forall c :: c in p ==> Passable(c)
    }

    /**
     * A record written by the search: its cell is passable and one step from
     * its closed parent; g is the parent's g + 1, h the heuristic, f = g + h.
     */
    ghost predicate LinkRecord(pass: set<Cell>, q: Query, came: seq<Record>, cl: seq<bool>, c: Cell, r: Record)
      requires |came| == Size() && |cl| == Size()
    {
      r.pos == c && c in pass && IsStep(q.dirs, r.parent, c) && CellInGrid(r.parent) && At(cl, r.parent) &&
      r.g == At(came, r.parent).g + 1 && r.h == HCost(q, c) && r.f == r.g + r.h
    }

    ghost predicate SearchRecordOK(pass: set<Cell>, q: Query, came: seq<Record>, cl: seq<bool>, c: Cell)
      requires |came| == Size() && |cl| == Size() && CellInGrid(c)
    {
      var r := At(came, c);
      (r == Blank() && !At(cl, c)) ||
      (c == q.start && r == StartRecord(q.start)) ||
      LinkRecord(pass, q, came, cl, c, r)
    }

    /** Every record is unwritten and open, the start record, or a link the search wrote. */
    ghost predicate SearchOK(pass: set<Cell>, q: Query, came: seq<Record>, cl: seq<bool>)
    {
      |came| == Size() && |cl| == Size() &&
      forall c {:trigger SearchRecordOK(pass, q, came, cl, c)} :: CellInGrid(c) ==> SearchRecordOK(pass, q, came, cl, c)
    }

    /** An open-list entry names an in-grid cell the search has linked (or the start). */
    ghost predicate EntriesOK(start: Cell, came: seq<Record>, open: seq<Entry>)
    {
      |came| == Size() &&
      forall e :: e in open ==> CellInGrid(e.pos) && (e.pos == start || At(came, e.pos) != Blank())
    }

    /** Neighbour nb of c, if it may still be entered, has an f no worse than via c. */
    ghost predicate NeighbourRelaxed(pass: set<Cell>, q: Query, came: seq<Record>, cl: seq<bool>, c: Cell, nb: Cell)
      requires |came| == Size() && |cl| == Size() && CellInGrid(c)
    {
      CellInGrid(nb) && nb in pass && !At(cl, nb) ==>
        At(came, nb).f != 0 && At(came, nb).f <= At(came, c).g + 1 + HCost(q, nb)
    }

    ghost predicate RelaxedUpTo(pass: set<Cell>, q: Query, came: seq<Record>, cl: seq<bool>, c: Cell, n: nat)
      requires |came| == Size() && |cl| == Size() && CellInGrid(c) && n <= 8
    {
      forall i :: 0 <= i < n ==> NeighbourRelaxed(pass, q, came, cl, c, Plus(c, Directions()[i]))
    }

    /** Every closed cell other than `skip` has relaxed all its neighbours. */
    ghost predicate RelaxedExcept(pass: set<Cell>, q: Query, came: seq<Record>, cl: seq<bool>, skip: Cell)
    {
      |came| == Size() && |cl| == Size() &&
      forall c {:trigger RelaxedUpTo(pass, q, came, cl, c, q.dirs)} ::
        CellInGrid(c) && At(cl, c) && c != skip ==> RelaxedUpTo(pass, q, came, cl, c, q.dirs)
    }

    /** The search state right after PathFind's set-up satisfies every invariant. */
    lemma FreshSearch(pass: set<Cell>, q: Query, came: seq<Record>, cl: seq<bool>, rank: seq<nat>, count: nat)
      requires Rows() >= 1 && Cols() >= 1 && CellInGrid(q.start)
      requires |came| == Size() && |cl| == Size() && |rank| == Size()
      requires forall k :: 0 <= k < Size() ==> !cl[k]
      requires forall k :: 0 <= k < Size() && k != ConvertTo1D(q.start) ==> came[k] == Blank()
      requires At(came, q.start) == StartRecord(q.start)
      ensures ChainsFounded(came, cl, rank, count) && SearchOK(pass, q, came, cl)
      ensures RelaxedExcept(pass, q, came, cl, Cell(-1, -1))
    {
      forall c | CellInGrid(c)
        ensures ChainOK(came, cl, rank, c) && SearchRecordOK(pass, q, came, cl, c)
      {
        if c != q.start {
          assert At(came, c) == Blank();
        }
      }
    }

    /** Closing a popped cell keeps the records founded and classified. */
    lemma ClosePreserves(pass: set<Cell>, q: Query, came: seq<Record>, cl: seq<bool>, rank: seq<nat>, count: nat, cur: Cell)
      requires ChainsFounded(came, cl, rank, count) && SearchOK(pass, q, came, cl)
      requires CellInGrid(cur) && (cur == q.start || At(came, cur) != Blank())
      requires CellInGrid(q.start) && At(came, q.start) == StartRecord(q.start)
      ensures var k := ConvertTo1D(cur);
              var rank' := if cl[k] then rank else rank[k := count];
              var count' := if cl[k] then count else count + 1;
              ChainsFounded(came, cl[k := true], rank', count') && SearchOK(pass, q, came, cl[k := true])
    {
      var k := ConvertTo1D(cur);
      var cl' := cl[k := true];
      var rank' := if cl[k] then rank else rank[k := count];
      var count' := if cl[k] then count else count + 1;
      assert SearchRecordOK(pass, q, came, cl, cur);
      assert ChainOK(came, cl, rank, cur);
      forall c | CellInGrid(c)
        ensures ChainOK(came, cl', rank', c)
      {
        assert ChainOK(came, cl, rank, c);
      }
      forall c | CellInGrid(c)
        ensures SearchRecordOK(pass, q, came, cl', c)
      {
        assert SearchRecordOK(pass, q, came, cl, c);
      }
    }

    /** Closing a popped cell keeps every other closed cell relaxed; a cell closed before stays relaxed. */
    lemma CloseKeepsRelaxed(pass: set<Cell>, q: Query, came: seq<Record>, cl: seq<bool>, cur: Cell)
      requires RelaxedExcept(pass, q, came, cl, Cell(-1, -1)) && CellInGrid(cur)
      ensures RelaxedExcept(pass, q, came, cl[ConvertTo1D(cur) := true], cur)
      ensures At(cl, cur) ==> RelaxedUpTo(pass, q, came, cl[ConvertTo1D(cur) := true], cur, q.dirs)
    {
      var cl' := cl[ConvertTo1D(cur) := true];
      forall c | CellInGrid(c) && At(cl', c) && c != cur
        ensures RelaxedUpTo(pass, q, came, cl', c, q.dirs)
      {
        assert RelaxedUpTo(pass, q, came, cl, c, q.dirs);
        forall i | 0 <= i < q.dirs
          ensures NeighbourRelaxed(pass, q, came, cl', c, Plus(c, Directions()[i]))
        {
          assert NeighbourRelaxed(pass, q, came, cl, c, Plus(c, Directions()[i]));
        }
      }
      if At(cl, cur) {
        assert cl' == cl;
        assert RelaxedUpTo(pass, q, came, cl, cur, q.dirs);
      }
    }

    /** The record a relaxation of neighbour i of `cur` writes. */
    function Relaxation(q: Query, came: seq<Record>, cur: Cell, i: nat): Record
      requires |came| == Size() && CellInGrid(cur) && i < 8
    {
      var nb := Plus(cur, Directions()[i]);
      var g := At(came, cur).g + 1;
      Record(nb, cur, g + HCost(q, nb), g, HCost(q, nb))
    }

    /** Whether relaxing neighbour i of `cur` writes its record: it is passable, open and improved. */
    ghost predicate Improves(pass: set<Cell>, q: Query, came: seq<Record>, cl: seq<bool>, cur: Cell, i: nat)
      requires |came| == Size() && |cl| == Size() && CellInGrid(cur) && i < 8
    {
      var nb := Plus(cur, Directions()[i]);
      CellInGrid(nb) && nb in pass && !At(cl, nb) &&
      (At(came, nb).f == 0 || Relaxation(q, came, cur, i).f < At(came, nb).f)
    }

    /** A write by the relaxation keeps the records founded and classified. */
    lemma RelaxKeepsRecords(pass: set<Cell>, q: Query, came: seq<Record>, cl: seq<bool>, rank: seq<nat>, count: nat, cur: Cell, i: nat)
      requires ChainsFounded(came, cl, rank, count) && SearchOK(pass, q, came, cl)
      requires CellInGrid(cur) && At(cl, cur) && i < q.dirs && Improves(pass, q, came, cl, cur, i)
      ensures var came' := came[ConvertTo1D(Plus(cur, Directions()[i])) := Relaxation(q, came, cur, i)];
              ChainsFounded(came', cl, rank, count) && SearchOK(pass, q, came', cl)
    {
      var nb := Plus(cur, Directions()[i]);
      var came' := came[ConvertTo1D(nb) := Relaxation(q, came, cur, i)];
      NeighbourIsStep(q.dirs, cur, i);
      forall c | CellInGrid(c)
        ensures ChainOK(came', cl, rank, c)
      {
        assert ChainOK(came, cl, rank, c);
      }
      forall c | CellInGrid(c)
        ensures SearchRecordOK(pass, q, came', cl, c)
      {
        assert SearchRecordOK(pass, q, came, cl, c);
        var r := At(came, c);
        if c != nb && LinkRecord(pass, q, came, cl, c, r) {
          assert r.parent != nb;
        }
      }
    }

    /** A write by the relaxation keeps every closed cell relaxed and extends cur's relaxed prefix. */
    lemma RelaxKeepsRelaxed(pass: set<Cell>, q: Query, came: seq<Record>, cl: seq<bool>, cur: Cell, i: nat)
      requires |came| == Size() && |cl| == Size()
      requires CellInGrid(cur) && At(cl, cur) && i < q.dirs && Improves(pass, q, came, cl, cur, i)
      requires RelaxedExcept(pass, q, came, cl, cur)
      ensures var came' := came[ConvertTo1D(Plus(cur, Directions()[i])) := Relaxation(q, came, cur, i)];
              RelaxedExcept(pass, q, came', cl, cur) &&
              (RelaxedUpTo(pass, q, came, cl, cur, i) ==> RelaxedUpTo(pass, q, came', cl, cur, i + 1))
    {
      var nb := Plus(cur, Directions()[i]);
      var came' := came[ConvertTo1D(nb) := Relaxation(q, came, cur, i)];
      forall c | CellInGrid(c) && At(cl, c) && c != cur
        ensures RelaxedUpTo(pass, q, came', cl, c, q.dirs)
      {
        assert RelaxedUpTo(pass, q, came, cl, c, q.dirs);
        forall j | 0 <= j < q.dirs
          ensures NeighbourRelaxed(pass, q, came', cl, c, Plus(c, Directions()[j]))
        {
          assert NeighbourRelaxed(pass, q, came, cl, c, Plus(c, Directions()[j]));
        }
      }
      if RelaxedUpTo(pass, q, came, cl, cur, i) {
        forall j | 0 <= j < i + 1
          ensures NeighbourRelaxed(pass, q, came', cl, cur, Plus(cur, Directions()[j]))
        {
          if j < i {
            assert NeighbourRelaxed(pass, q, came, cl, cur, Plus(cur, Directions()[j]));
          }
        }
      }
    }

    /** Without a write, neighbour i of `cur` is already relaxed. */
    lemma NoWriteRelaxed(pass: set<Cell>, q: Query, came: seq<Record>, cl: seq<bool>, cur: Cell, i: nat)
      requires |came| == Size() && |cl| == Size() && CellInGrid(cur) && i < q.dirs
      requires !Improves(pass, q, came, cl, cur, i)
      ensures RelaxedUpTo(pass, q, came, cl, cur, i) ==> RelaxedUpTo(pass, q, came, cl, cur, i + 1)
    {
    }

    /**
     * Relaxes neighbour i of the current cell (the body of PathFind's inner
     * loop): a passable, open neighbour whose record is unwritten (f = 0) or
     * worse than via the current cell gets a new record and an open-list entry.
     */
    method Relax(ghost pass: set<Cell>, cur: Cell, i: nat)
      requires Valid() && pass == PassableSet()
      requires CellInGrid(cur) && At(closed, cur) && i < nrOfDirections && At(closed, startPos)
      requires SearchOK(pass, CurrentQuery(), cameFrom, closed) && EntriesOK(startPos, cameFrom, openList)
      requires RelaxedExcept(pass, CurrentQuery(), cameFrom, closed, cur)
      requires At(cameFrom, startPos) == StartRecord(startPos)
      requires Pending(startPos, cameFrom, closed, openList)
      modifies this`openList, this`cameFrom
      ensures Valid() && SearchOK(pass, CurrentQuery(), cameFrom, closed) && EntriesOK(startPos, cameFrom, openList)
      ensures RelaxedExcept(pass, CurrentQuery(), cameFrom, closed, cur)
      ensures Pending(startPos, cameFrom, closed, openList)
      ensures At(cameFrom, startPos) == StartRecord(startPos)
      ensures old(RelaxedUpTo(pass, CurrentQuery(), cameFrom, closed, cur, i)) ==>
                RelaxedUpTo(pass, CurrentQuery(), cameFrom, closed, cur, i + 1)
      ensures if Improves(pass, CurrentQuery(), old(cameFrom), closed, cur, i) then
                cameFrom == old(cameFrom)[ConvertTo1D(Plus(cur, Directions()[i])) := Relaxation(CurrentQuery(), old(cameFrom), cur, i)] &&
                openList == old(openList) + [Entry(Plus(cur, Directions()[i]), Relaxation(CurrentQuery(), old(cameFrom), cur, i).f)]
              else
                cameFrom == old(cameFrom) && openList == old(openList)
    {
      ghost var q := CurrentQuery();
      var nb := Plus(cur, Directions()[i]);
      if !IsValid(nb) || IsBlocked(nb.y, nb.x, DEFAULT_INVERT) || closed[ConvertTo1D(nb)] {
        NoWriteRelaxed(pass, q, cameFrom, closed, cur, i);
        return;
      }
      var gNew := cameFrom[ConvertTo1D(cur)].g + 1;
      var hNew := HeuristicCost(heuristic, nb, targetPos, weight);
      var fNew := gNew + hNew;
      if cameFrom[ConvertTo1D(nb)].f == 0 || fNew < cameFrom[ConvertTo1D(nb)].f {
        assert Improves(pass, q, cameFrom, closed, cur, i);
        assert Record(nb, cur, fNew, gNew, hNew) == Relaxation(q, cameFrom, cur, i);
        Write(pass, cur, i, Record(nb, cur, fNew, gNew, hNew));
      } else {
        NoWriteRelaxed(pass, q, cameFrom, closed, cur, i);
      }
    }

    /** The write branch of Relax: the neighbour's record becomes the relaxation and it joins the open list. */
    method Write(ghost pass: set<Cell>, cur: Cell, i: nat, r: Record)
      requires Valid() && pass == PassableSet()
      requires CellInGrid(cur) && At(closed, cur) && i < nrOfDirections && At(closed, startPos)
      requires SearchOK(pass, CurrentQuery(), cameFrom, closed) && EntriesOK(startPos, cameFrom, openList)
      requires RelaxedExcept(pass, CurrentQuery(), cameFrom, closed, cur)
      requires At(cameFrom, startPos) == StartRecord(startPos)
      requires Pending(startPos, cameFrom, closed, openList)
      requires Improves(pass, CurrentQuery(), cameFrom, closed, cur, i)
      requires r == Relaxation(CurrentQuery(), cameFrom, cur, i)
      modifies this`openList, this`cameFrom
      ensures Valid() && SearchOK(pass, CurrentQuery(), cameFrom, closed) && EntriesOK(startPos, cameFrom, openList)
      ensures RelaxedExcept(pass, CurrentQuery(), cameFrom, closed, cur)
      ensures Pending(startPos, cameFrom, closed, openList)
      ensures At(cameFrom, startPos) == StartRecord(startPos)
      ensures old(RelaxedUpTo(pass, CurrentQuery(), cameFrom, closed, cur, i)) ==>
                RelaxedUpTo(pass, CurrentQuery(), cameFrom, closed, cur, i + 1)
      ensures cameFrom == old(cameFrom)[ConvertTo1D(Plus(cur, Directions()[i])) := r]
      ensures openList == old(openList) + [Entry(Plus(cur, Directions()[i]), r.f)]
    {
      ghost var q := CurrentQuery();
      var nb := Plus(cur, Directions()[i]);
      RelaxKeepsRecords(pass, q, cameFrom, closed, closeRank, closeCount, cur, i);
      RelaxKeepsRelaxed(pass, q, cameFrom, closed, cur, i);
      PushPending(startPos, cameFrom, closed, openList, nb, r, r.f);
      openList := openList + [Entry(nb, r.f)];
      cameFrom := cameFrom[ConvertTo1D(nb) := r];
      assert CurrentQuery() == q;
    }

    /** ResetAStarLists: an empty open list, every record blank, every cell open. */
    method ResetAStarLists()
      requires Valid()
      modifies this`openList, this`cameFrom, this`closed, this`closeRank, this`closeCount
      ensures Valid() && openList == []
      ensures |cameFrom| == Size() && forall k :: 0 <= k < Size() ==> cameFrom[k] == Blank()
      ensures |closed| == Size() && forall k :: 0 <= k < Size() ==> !closed[k]
    {
      openList := [];
      var i := 0;
      while i < |cameFrom|
        modifies this`cameFrom
        invariant i <= |cameFrom| == Size()
        invariant forall k :: 0 <= k < i ==> cameFrom[k] == Blank()
      {
        cameFrom := cameFrom[i := Blank()];
        i := i + 1;
      }
      i := 0;
      while i < |closed|
        modifies this`closed
        invariant i <= |closed| == Size()
        invariant forall k :: 0 <= k < i ==> !closed[k]
      {
        closed := closed[i := false];
        i := i + 1;
      }
      closeRank := seq(Size(), _ => 0);
      closeCount := 0;
      forall c | CellInGrid(c)
        ensures ChainOK(cameFrom, closed, closeRank, c)
      {
        assert At(cameFrom, c) == Blank();
      }
    }

    /** The slots of cells still open, the search's measure of progress. */
    static ghost function UnclosedSet(cl: seq<bool>): set<nat>
    {
      set k | 0 <= k < |cl| && !cl[k]
    }

    /** Removing one entry of the open list keeps the entries linked. */
    lemma PopKeepsEntries(start: Cell, came: seq<Record>, open: seq<Entry>, top: nat)
      requires EntriesOK(start, came, open) && top < |open|
      ensures EntriesOK(start, came, open[..top] + open[top + 1..])
    {
      forall e | e in open[..top] + open[top + 1..]
        ensures e in open
      {
        if e in open[..top] {
          var j :| 0 <= j < top && open[..top][j] == e;
          assert open[j] == e;
        } else {
          var j :| 0 <= j < |open| - top - 1 && open[top + 1..][j] == e;
          assert open[top + 1 + j] == e;
        }
      }
    }

    /** A cell whose neighbours are all relaxed gets no write from relaxing any of them. */
    lemma RelaxedNoImprove(pass: set<Cell>, q: Query, came: seq<Record>, cl: seq<bool>, cur: Cell, i: nat)
      requires |came| == Size() && |cl| == Size() && CellInGrid(cur) && i < q.dirs
      requires RelaxedUpTo(pass, q, came, cl, cur, q.dirs)
      ensures !Improves(pass, q, came, cl, cur, i)
    {
      assert NeighbourRelaxed(pass, q, came, cl, cur, Plus(cur, Directions()[i]));
    }

    /** A search invariant record is, forgetting tiles and costs, a step link. */
    lemma SearchLinks(pass: set<Cell>, q: Query, came: seq<Record>, cl: seq<bool>)
      requires SearchOK(pass, q, came, cl)
      ensures StepLinked(q.start, q.dirs, came, cl)
    {
      forall c | CellInGrid(c)
        ensures StepLinkOK(q.start, q.dirs, came, cl, c)
      {
        assert SearchRecordOK(pass, q, came, cl, c);
      }
    }

    /**
     * Walking parents back from a target the search linked meets only cells
     * the search linked: each is passable and one step from a closed parent.
     */
    lemma {:induction false} LinkedBack(pass: set<Cell>, q: Query, came: seq<Record>, cl: seq<bool>, path: seq<Cell>, j: nat)
      requires SearchOK(pass, q, came, cl) && j < |path|
      requires forall c :: c in path ==> CellInGrid(c) && At(came, c).parent != c
      requires forall j :: 0 <= j < |path| - 1 ==> path[j] == At(came, path[j + 1]).parent
      requires At(came, path[|path| - 1]) != Blank()
      ensures LinkRecord(pass, q, came, cl, path[j], At(came, path[j]))
      decreases |path| - j
    {
      assert SearchRecordOK(pass, q, came, cl, path[j]);
      if j < |path| - 1 {
        LinkedBack(pass, q, came, cl, path, j + 1);
        assert At(cl, path[j]);
      }
    }

    /**
     * The search state between passes, over explicit values: records founded
     * and classified, open entries linked, the start record in place, and
     * every closed cell relaxed.
     */
    ghost predicate SearchState(pass: set<Cell>, q: Query, came: seq<Record>, cl: seq<bool>, open: seq<Entry>)
    {
      CellInGrid(q.start) &&
      SearchOK(pass, q, came, cl) && EntriesOK(q.start, came, open) &&
      At(came, q.start) == StartRecord(q.start) &&
      RelaxedExcept(pass, q, came, cl, Cell(-1, -1))
    }

    /** The loop invariant of the search: the state above, and the start closed or still the only entry. */
    ghost predicate Frontier(pass: set<Cell>, q: Query, came: seq<Record>, cl: seq<bool>, open: seq<Entry>)
    {
      SearchState(pass, q, came, cl, open) &&
      (At(cl, q.start) || open == [Entry(q.start, 0)])
    }

    /** Popping the top entry leaves a consistent state and a cell the search may close. */
    lemma PopTop(pass: set<Cell>, q: Query, came: seq<Record>, cl: seq<bool>, open: seq<Entry>, top: nat)
      requires Frontier(pass, q, came, cl, open) && top < |open|
      ensures CellInGrid(open[top].pos) && (open[top].pos == q.start || At(came, open[top].pos) != Blank())
      ensures !At(cl, q.start) ==> open[top].pos == q.start
      ensures SearchState(pass, q, came, cl, open[..top] + open[top + 1..])
    {
      assert open[top] in open;
      PopKeepsEntries(q.start, came, open, top);
    }

    /** Closing an open cell removes its slot from the open set; closing a closed one changes nothing. */
    lemma CloseShrinks(cl: seq<bool>, k: nat)
      requires k < |cl|
      ensures !cl[k] ==> UnclosedSet(cl[k := true]) < UnclosedSet(cl)
      ensures cl[k] ==> cl[k := true] == cl
    {
      if !cl[k] {
        assert k in UnclosedSet(cl) - UnclosedSet(cl[k := true]);
      }
    }

    /** The cells that have an entry on the open list. */
    static ghost function OpenCells(open: seq<Entry>): set<Cell>
    {
      set e | e in open :: e.pos
    }

    /** The start or a recorded cell that is still open has an entry on the open list. */
    ghost predicate PendingCell(start: Cell, came: seq<Record>, cl: seq<bool>, open: seq<Entry>, c: Cell)
      requires |came| == Size() && |cl| == Size() && CellInGrid(c)
    {
      (c == start || At(came, c) != Blank()) && !At(cl, c) ==> c in OpenCells(open)
    }

    /** No recorded cell is forgotten: each is closed or waits on the open list. */
    ghost predicate Pending(start: Cell, came: seq<Record>, cl: seq<bool>, open: seq<Entry>)
    {
      |came| == Size() && |cl| == Size() &&
      forall c {:trigger PendingCell(start, came, cl, open, c)} :: CellInGrid(c) ==> PendingCell(start, came, cl, open, c)
    }

    /** Recording a cell and pushing its entry keeps every recorded open cell on the open list. */
    lemma PushPending(start: Cell, came: seq<Record>, cl: seq<bool>, open: seq<Entry>, nb: Cell, r: Record, f: nat)
      requires Pending(start, came, cl, open) && CellInGrid(nb)
      ensures Pending(start, came[ConvertTo1D(nb) := r], cl, open + [Entry(nb, f)])
    {
      var came' := came[ConvertTo1D(nb) := r];
      var open' := open + [Entry(nb, f)];
      forall c | CellInGrid(c)
        ensures PendingCell(start, came', cl, open', c)
      {
        if c == nb {
          assert Entry(nb, f) in open';
        } else {
          ConvertTo1DInjective(c, nb);
          assert PendingCell(start, came, cl, open, c);
          if c in OpenCells(open) {
            var e :| e in open && e.pos == c;
            assert e in open';
          }
        }
      }
    }

    /** Popping an entry and closing its cell keeps every other recorded open cell on the open list. */
    lemma PopPending(start: Cell, came: seq<Record>, cl: seq<bool>, open: seq<Entry>, top: nat)
      requires Pending(start, came, cl, open) && top < |open| && CellInGrid(open[top].pos)
      ensures Pending(start, came, cl[ConvertTo1D(open[top].pos) := true], open[..top] + open[top + 1..])
    {
      var cur := open[top].pos;
      var cl' := cl[ConvertTo1D(cur) := true];
      var open' := open[..top] + open[top + 1..];
      forall c | CellInGrid(c)
        ensures PendingCell(start, came, cl', open', c)
      {
        if c != cur {
          ConvertTo1DInjective(c, cur);
          assert PendingCell(start, came, cl, open, c);
          if c in OpenCells(open) {
            var e :| e in open && e.pos == c;
            var j :| 0 <= j < |open| && open[j] == e;
            if j < top {
              assert open'[j] == e;
            } else {
              assert open'[j - 1] == e;
            }
          }
        }
      }
    }

    /** A passable neighbour of a closed cell is closed or recorded: the closed cell relaxed it. */
    lemma StepRecorded(pass: set<Cell>, q: Query, came: seq<Record>, cl: seq<bool>, c: Cell, nb: Cell)
      requires RelaxedExcept(pass, q, came, cl, Cell(-1, -1))
      requires CellInGrid(c) && At(cl, c) && IsStep(q.dirs, c, nb) && CellInGrid(nb) && nb in pass
      ensures At(cl, nb) || At(came, nb) != Blank()
    {
      var d := Directions()[..q.dirs];
      var i :| 0 <= i < |d| && d[i] == Delta(c, nb);
      assert Plus(c, Directions()[i]) == nb;
      assert RelaxedUpTo(pass, q, came, cl, c, q.dirs);
      assert NeighbourRelaxed(pass, q, came, cl, c, Plus(c, Directions()[i]));
    }

    /**
     * Once no recorded cell waits on the open list, every cell of a walk from
     * the start over passable cells is closed and recorded.
     */
    lemma {:induction false} ReachClosed(pass: set<Cell>, q: Query, came: seq<Record>, cl: seq<bool>, p: seq<Cell>, t: Cell, j: nat)
      requires SearchOK(pass, q, came, cl) && RelaxedExcept(pass, q, came, cl, Cell(-1, -1))
      requires Pending(q.start, came, cl, []) && CellInGrid(q.start)
      requires IsWalk(q.dirs, q.start, p, t) && forall c :: c in p ==> CellInGrid(c) && c in pass
      requires j < |p|
      ensures At(cl, p[j]) && (p[j] == q.start || At(came, p[j]) != Blank())
      decreases j
    {
      var prev := if j == 0 then q.start else p[j - 1];
      if j == 0 {
        assert PendingCell(q.start, came, cl, [], q.start);
      } else {
        ReachClosed(pass, q, came, cl, p, t, j - 1);
      }
      assert p[j] in p;
      StepRecorded(pass, q, came, cl, prev, p[j]);
      assert PendingCell(q.start, came, cl, [], p[j]);
      assert SearchRecordOK(pass, q, came, cl, p[j]);
    }

    /**
     * The set-up of PathFind: stores the query, resets the lists, gives the
     * start its own parent and puts it on the open list with f = 0.
     */
    method StartSearch(start: Cell, target: Cell, kind: Heuristic, w: int)
      requires Valid() && CellInGrid(start) && CellInGrid(target)
      modifies this`startPos, this`targetPos, this`weight, this`heuristic
      modifies this`openList, this`cameFrom, this`closed, this`closeRank, this`closeCount
      ensures Valid() && CurrentQuery() == Query(start, target, kind, w, nrOfDirections)
      ensures openList == [Entry(start, 0)]
      ensures forall k :: 0 <= k < Size() ==> !closed[k]
      ensures forall c :: CellInGrid(c) ==> At(cameFrom, c) == if c == start then StartRecord(start) else Blank()
      ensures Frontier(PassableSet(), CurrentQuery(), cameFrom, closed, openList)
      ensures Pending(startPos, cameFrom, closed, openList)
    {
      startPos := start;
      targetPos := target;
      weight := w;
      heuristic := kind;
      ResetAStarLists();
      cameFrom := cameFrom[ConvertTo1D(startPos) := cameFrom[ConvertTo1D(startPos)].(parent := startPos)];
      openList := [Entry(startPos, 0)];
      FreshSearch(PassableSet(), CurrentQuery(), cameFrom, closed, closeRank, closeCount);
      forall c | CellInGrid(c)
        ensures At(cameFrom, c) == if c == start then StartRecord(start) else Blank()
      {
        if c != start {
          ConvertTo1DInjective(c, start);
        }
      }
      forall c | CellInGrid(c)
        ensures PendingCell(startPos, cameFrom, closed, openList, c)
      {
        if c == start {
          assert Entry(start, 0) in openList;
        }
      }
    }

    /**
     * Closes the popped cell `cur` (the first half of one pass of PathFind's
     * outer loop); the search invariant holds except that `cur` may not yet
     * have relaxed its neighbours.
     */
    method CloseCell(ghost pass: set<Cell>, cur: Cell)
      requires Valid() && pass == PassableSet() && CellInGrid(cur)
      requires SearchState(pass, CurrentQuery(), cameFrom, closed, openList)
      requires cur == startPos || At(cameFrom, cur) != Blank()
      requires !At(closed, startPos) ==> cur == startPos
      modifies this`closed, this`closeRank, this`closeCount
      ensures Valid() && closed == old(closed)[ConvertTo1D(cur) := true]
      ensures SearchOK(pass, CurrentQuery(), cameFrom, closed) && EntriesOK(startPos, cameFrom, openList)
      ensures At(closed, startPos) && At(cameFrom, startPos) == StartRecord(startPos)
      ensures RelaxedExcept(pass, CurrentQuery(), cameFrom, closed, cur)
      ensures old(At(closed, cur)) ==> RelaxedUpTo(pass, CurrentQuery(), cameFrom, closed, cur, nrOfDirections)
    {
      var k := ConvertTo1D(cur);
      ClosePreserves(pass, CurrentQuery(), cameFrom, closed, closeRank, closeCount, cur);
      CloseKeepsRelaxed(pass, CurrentQuery(), cameFrom, closed, cur);
      if !closed[k] {
        closeRank := closeRank[k := closeCount];
        closeCount := closeCount + 1;
      }
      closed := closed[k := true];
    }

    /**
     * The second half of one pass: relaxes the neighbours of the closed cell
     * `cur` in offset order. A cell that had already relaxed them writes nothing.
     */
    method RelaxNeighbours(ghost pass: set<Cell>, cur: Cell)
      requires Valid() && pass == PassableSet() && CellInGrid(cur)
      requires At(closed, cur) && At(closed, startPos) && At(cameFrom, startPos) == StartRecord(startPos)
      requires SearchOK(pass, CurrentQuery(), cameFrom, closed) && EntriesOK(startPos, cameFrom, openList)
      requires RelaxedExcept(pass, CurrentQuery(), cameFrom, closed, cur)
      requires Pending(startPos, cameFrom, closed, openList)
      modifies this`openList, this`cameFrom
      ensures Valid() && Frontier(pass, CurrentQuery(), cameFrom, closed, openList)
      ensures Pending(startPos, cameFrom, closed, openList)
      ensures old(RelaxedUpTo(pass, CurrentQuery(), cameFrom, closed, cur, nrOfDirections)) ==>
                openList == old(openList) && cameFrom == old(cameFrom)
    {
      ghost var q := CurrentQuery();
      ghost var done := RelaxedUpTo(pass, q, cameFrom, closed, cur, q.dirs);
      var i := 0;
      while i < nrOfDirections
        invariant i <= nrOfDirections
        invariant Valid() && pass == PassableSet() && q == CurrentQuery()
        invariant At(closed, cur) && At(closed, startPos)
        invariant SearchOK(pass, q, cameFrom, closed) && EntriesOK(startPos, cameFrom, openList)
        invariant At(cameFrom, startPos) == StartRecord(startPos)
        invariant RelaxedExcept(pass, q, cameFrom, closed, cur)
        invariant RelaxedUpTo(pass, q, cameFrom, closed, cur, i)
        invariant Pending(startPos, cameFrom, closed, openList)
        invariant done ==> openList == old(openList) && cameFrom == old(cameFrom) && RelaxedUpTo(pass, q, cameFrom, closed, cur, q.dirs)
      {
        if done {
          RelaxedNoImprove(pass, q, cameFrom, closed, cur, i);
        }
        Relax(pass, cur, i);
        i := i + 1;
      }
      RelaxedAll(pass, q, cameFrom, closed, cur);
    }

    /** Once `cur` has relaxed all its neighbours, every closed cell is relaxed. */
    lemma RelaxedAll(pass: set<Cell>, q: Query, came: seq<Record>, cl: seq<bool>, cur: Cell)
      requires |came| == Size() && |cl| == Size() && CellInGrid(cur)
      requires RelaxedExcept(pass, q, came, cl, cur) && RelaxedUpTo(pass, q, came, cl, cur, q.dirs)
      ensures RelaxedExcept(pass, q, came, cl, Cell(-1, -1))
    {
    }

    /**
     * One pass of PathFind's outer loop once the top is known not to be the
     * target: pops it, closes its cell and relaxes the neighbours. The pass
     * closes a new cell, or pops a stale entry and changes nothing else.
     */
    method Expand(ghost pass: set<Cell>, top: nat)
      requires Valid() && pass == PassableSet() && top < |openList|
      requires Frontier(pass, CurrentQuery(), cameFrom, closed, openList)
      requires Pending(startPos, cameFrom, closed, openList)
      modifies this`openList, this`cameFrom, this`closed, this`closeRank, this`closeCount
      ensures Valid() && Frontier(pass, CurrentQuery(), cameFrom, closed, openList)
      ensures Pending(startPos, cameFrom, closed, openList)
      ensures UnclosedSet(closed) < old(UnclosedSet(closed)) ||
              (closed == old(closed) && |openList| < old(|openList|))
    {
      var cur := openList[top].pos;
      PopTop(pass, CurrentQuery(), cameFrom, closed, openList, top);
      PopPending(startPos, cameFrom, closed, openList, top);
      openList := openList[..top] + openList[top + 1..];
      CloseShrinks(closed, ConvertTo1D(cur));
      CloseCell(pass, cur);
      RelaxNeighbours(pass, cur);
    }

    /**
     * The main loop of PathFind: pops the entry of least f until the open
     * list is empty or its top is the target, closing each popped cell and
     * relaxing its neighbours. It ends with an empty open list, and either
     * the target recorded or every recorded cell closed with its neighbours
     * relaxed.
     */
    method Search(ghost pass: set<Cell>)
      requires Valid() && pass == PassableSet()
      requires Frontier(pass, CurrentQuery(), cameFrom, closed, openList)
      requires Pending(startPos, cameFrom, closed, openList)
      modifies this`openList, this`cameFrom, this`closed, this`closeRank, this`closeCount
      ensures Valid() && openList == []
      ensures SearchOK(pass, CurrentQuery(), cameFrom, closed) && At(cameFrom, startPos) == StartRecord(startPos)
      ensures RelaxedExcept(pass, CurrentQuery(), cameFrom, closed, Cell(-1, -1))
      ensures targetPos == startPos || At(cameFrom, targetPos) != Blank() || Pending(startPos, cameFrom, closed, [])
    {
      while openList != []
        invariant Valid() && pass == PassableSet()
        invariant Frontier(pass, CurrentQuery(), cameFrom, closed, openList)
        invariant Pending(startPos, cameFrom, closed, openList)
        decreases UnclosedSet(closed), |openList|
      {
        var top := TopIndex(openList);
        if openList[top].pos == targetPos {
          assert openList[top] in openList;
          openList := [];
          break;
        }
        Expand(pass, top);
      }
    }

    /**
     * The end of PathFind: the path BuildPath rebuilds from the records a
     * search left. When the target was reached it is a walk of neighbour
     * steps from the start over passable cells.
     */
    method FinishPath(ghost pass: set<Cell>) returns (path: seq<Cell>)
      requires Valid() && pass == PassableSet()
      requires SearchOK(pass, CurrentQuery(), cameFrom, closed) && At(cameFrom, startPos) == StartRecord(startPos)
      requires RelaxedExcept(pass, CurrentQuery(), cameFrom, closed, Cell(-1, -1))
      requires targetPos == startPos || At(cameFrom, targetPos) != Blank() || Pending(startPos, cameFrom, closed, [])
      ensures path != [] ==> path[|path| - 1] == targetPos
      ensures |path| == 1 ==> ManhattanDistance(startPos, targetPos) <= 1
      ensures startPos == targetPos ==> path == []
      ensures forall c :: c in path ==> CellInGrid(c)
      ensures forall j :: 0 <= j < |path| - 1 ==> path[j] == At(cameFrom, path[j + 1]).parent
      ensures path != [] && At(cameFrom, targetPos) != Blank() ==>
                IsWalk(nrOfDirections, startPos, path, targetPos) && forall c :: c in path ==> Passable(c)
      ensures (At(cameFrom, targetPos) != Blank() || Reachable(startPos, targetPos)) && startPos != targetPos &&
              !(nrOfDirections == 8 && Diagonal(startPos, targetPos)) ==>
                path != [] && IsWalk(nrOfDirections, startPos, path, targetPos)
    {
      if startPos != targetPos && Reachable(startPos, targetPos) && At(cameFrom, targetPos) == Blank() {
        var p :| IsWalk(nrOfDirections, startPos, p, targetPos) && forall c :: c in p ==> Passable(c);
        ReachClosed(pass, CurrentQuery(), cameFrom, closed, p, targetPos, |p| - 1);
      }
      path := BuildPath();
      SearchLinks(pass, CurrentQuery(), cameFrom, closed);
      if path != [] && At(cameFrom, targetPos) != Blank() {
        forall c | c in path
          ensures Passable(c)
        {
          var j :| 0 <= j < |path| && path[j] == c;
          LinkedBack(pass, CurrentQuery(), cameFrom, closed, path, j);
        }
      }
    }

    /**
     * PathFind: weighted A* from `start` to `target` over the current level.
     * A blocked endpoint gives an empty path; otherwise the open list is
     * searched until it empties or its top is the target, and the path is
     * rebuilt from the came-from records. When the target was reached the
     * path is a walk of neighbour steps from the start over passable cells.
     */
    method PathFind(start: Cell, target: Cell, kind: Heuristic, w: int) returns (path: seq<Cell>)
      requires Valid()
      modifies this`startPos, this`targetPos, this`weight, this`heuristic
      modifies this`openList, this`cameFrom, this`closed, this`closeRank, this`closeCount
      ensures Valid()
      ensures !CellInGrid(start) || !CellInGrid(target) ==> path == []
      ensures (CellInGrid(start) && CellInGrid(target) &&
               (IsBlocked(start.y, start.x, DEFAULT_INVERT) || IsBlocked(target.y, target.x, DEFAULT_INVERT))) ==> path == []
      ensures path != [] ==> CurrentQuery() == Query(start, target, kind, w, nrOfDirections)
      ensures path != [] ==> path[|path| - 1] == target
      ensures |path| == 1 ==> ManhattanDistance(start, target) <= 1
      ensures start == target ==> path == []
      ensures forall c :: c in path ==> CellInGrid(c)
      ensures forall j :: 0 <= j < |path| - 1 ==> path[j] == At(cameFrom, path[j + 1]).parent
      ensures path != [] && At(cameFrom, target) != Blank() ==>
                IsWalk(nrOfDirections, start, path, target) && forall c :: c in path ==> Passable(c)
      ensures CellInGrid(start) && !IsBlocked(start.y, start.x, DEFAULT_INVERT) && start != target &&
              Reachable(start, target) && !(nrOfDirections == 8 && Diagonal(start, target)) ==>
                path != [] && IsWalk(nrOfDirections, start, path, target)
    {
      if !CellInGrid(start) || !CellInGrid(target) ||
         IsBlocked(start.y, start.x, DEFAULT_INVERT) || IsBlocked(target.y, target.x, DEFAULT_INVERT) {
        if Reachable(start, target) {
          // The walk ends on the target, which is therefore passable.
          var p :| IsWalk(nrOfDirections, start, p, target) && forall c :: c in p ==> Passable(c);
          assert p[|p| - 1] in p;
        }
        return [];
      }
      path := SearchBetween(start, target, kind, w);
    }

    /**
     * PathFind past its blocked-endpoint test: set-up, search and path
     * rebuilding for two in-grid endpoints.
     */
    method SearchBetween(start: Cell, target: Cell, kind: Heuristic, w: int) returns (path: seq<Cell>)
      requires Valid() && CellInGrid(start) && CellInGrid(target)
      modifies this`startPos, this`targetPos, this`weight, this`heuristic
      modifies this`openList, this`cameFrom, this`closed, this`closeRank, this`closeCount
      ensures Valid() && CurrentQuery() == Query(start, target, kind, w, nrOfDirections)
      ensures path != [] ==> path[|path| - 1] == target
      ensures |path| == 1 ==> ManhattanDistance(start, target) <= 1
      ensures start == target ==> path == []
      ensures forall c :: c in path ==> CellInGrid(c)
      ensures forall j :: 0 <= j < |path| - 1 ==> path[j] == At(cameFrom, path[j + 1]).parent
      ensures path != [] && At(cameFrom, target) != Blank() ==>
                IsWalk(nrOfDirections, start, path, target) && forall c :: c in path ==> Passable(c)
      ensures start != target && Reachable(start, target) && !(nrOfDirections == 8 && Diagonal(start, target)) ==>
                path != [] && IsWalk(nrOfDirections, start, path, target)
    {
      StartSearch(start, target, kind, w);
      Search(PassableSet());
      path := FinishPath(PassableSet());
    }
  }
}
