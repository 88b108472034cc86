/**
 * The enemies of the 2D scene (App/Source/Scene2D/Enemy2D.cpp): a tile
 * index with a micro-step offset per axis, walked toward the head of a
 * waypoint list planned by the tile map's A* search, and a four-state
 * machine (ATTACK, FLEE, KNOCKOUT, SUPPORT) driven by the enemy's lives.
 *
 * Enemy rows are in inverted addressing (row 0 is the bottom row), as the
 * tile map's default. A probe outside the grid reads as a solid tile.
 */
module Enemy2D {
  import opened Map2D
  import opened Player2D

  /** The states of the enemy's machine. */
  datatype FSM = Attack | Flee | KnockOut | Support

  /**
   * The state named in a SetFSM call. Every name other than the first three
   * selects SUPPORT, so SupportRequest stands for all of them.
   */
  datatype Request = AttackRequest | FleeRequest | KnockOutRequest | SupportRequest

  /** An enemy's position on its way: tile index, micro-steps and the waypoints left. */
  datatype Course = Course(index: Cell, micro: Cell, path: seq<Cell>)

  /** What standing on a tile does to an enemy: lives gained, its live item, whether the tile is cleared. */
  datatype Take = Take(lifeDelta: int, item: Item, clears: bool)

  const ENEMY_MAX_LIVES := 2
  /** The tile code that marks an enemy's start position in a level. */
  const ENEMY_TILE := 300
  /** The weight both of the enemy's A* searches use. */
  const PATH_WEIGHT := 10
  /** nearestLive when no pickup has been chosen. */
  const NOT_FOUND := Cell(1000, 1000)
  /** supportPos when no enemy is to be rescued. */
  const NO_SUPPORT := Cell(-1, -1)

  /** The cell lies on a cols x rows grid. */
  predicate InBox(c: Cell, cols: int, rows: int)
  {
    0 <= c.x < cols && 0 <= c.y < rows
  }

  /** b is a, or one step from a toward t without passing it. */
  predicate Closer(a: int, b: int, t: int)
  {
    b == a || (a < t && b == a + 1) || (a > t && b == a - 1)
  }

  // ---------------------------------------------------------------------------
  // UpdatePosition
  // ---------------------------------------------------------------------------

  /**
   * One micro-step along one axis toward waypoint coordinate `toward`, with
   * `n` micro-steps per tile and `bound` tiles on the axis. Moving down
   * the axis, an underflow carries into the index and restarts at n (not
   * n - 1); moving up, reaching n carries and restarts at 0.
   */
  function AxisStep(idx: int, micro: int, toward: int, n: int, bound: int): (r: (int, int))
    ensures toward == idx ==> r == (idx, micro)
    ensures Closer(idx, r.0, toward)
    ensures r.0 == idx - 1 ==> r.1 == n && micro <= 0
    ensures r.0 == idx + 1 ==> r.1 == 0 && micro + 1 >= n
    ensures r.0 == idx ==> r.1 == micro || (toward < idx && r.1 == micro - 1) || (toward > idx && r.1 == micro + 1)
  {
    if toward < idx then
      if idx >= 0 then
        if micro - 1 < 0 then (idx - 1, n) else (idx, micro - 1)
      else (idx, micro)
    else if toward > idx then
      if idx < bound then
        if micro + 1 >= n then (idx + 1, 0) else (idx, micro + 1)
      else (idx, micro)
    else (idx, micro)
  }

  /** k successive axis steps toward the same coordinate. */
  function AxisRun(k: nat, idx: int, micro: int, toward: int, n: int, bound: int): (int, int)
    decreases k
  {
    if k == 0 then (idx, micro)
    else
      var s := AxisStep(idx, micro, toward, n, bound);
      AxisRun(k - 1, s.0, s.1, toward, n, bound)
  }

  /** Moving up an axis from micro-step m, the (n - m)-th step enters the next tile at micro-step 0. */
  lemma {:induction false} ForwardCarry(k: nat, idx: int, micro: int, toward: int, n: int, bound: int)
    requires idx < toward && idx < bound && 0 <= micro && k >= 1 && micro + k == n
    ensures AxisRun(k, idx, micro, toward, n, bound) == (idx + 1, 0)
  {
    if k > 1 {
      ForwardCarry(k - 1, idx, micro + 1, toward, n, bound);
    }
  }

  /**
   * Moving down an axis from micro-step m, the (m + 1)-th step enters the
   * next tile at micro-step n: a full tile downwards takes n + 1 steps.
   */
  lemma {:induction false} BackwardCarry(k: nat, idx: int, micro: int, toward: int, n: int, bound: int)
    requires toward < idx && 0 <= idx && 0 <= micro && k == micro + 1
    ensures AxisRun(k, idx, micro, toward, n, bound) == (idx - 1, n)
  {
    if k > 1 {
      BackwardCarry(k - 1, idx, micro - 1, toward, n, bound);
    }
  }

  /**
   * The waypoint test after a step: an enemy on the head waypoint pops it,
   * except that over a floor block (100 to 120 below) it first runs its
   * vertical micro-step down to zero, and on a ladder (30 to 36) its
   * horizontal one.
   */
  function Arrive(v: seq<seq<int>>, idx: Cell, micro: Cell, path: seq<Cell>): (r: (Cell, seq<Cell>))
    ensures path == [] || idx != path[0] ==> r == (micro, path)
    ensures r.1 == path || (path != [] && idx == path[0] && r.1 == path[1..])
    ensures r.1 == path ==> r.0 == micro || r.0 == micro.(y := micro.y - 1) || r.0 == micro.(x := micro.x - 1)
  {
    if path != [] && idx == path[0] then
      if 100 <= Tile(v, idx.y - 1, idx.x) <= 120 then
        if micro.y - 1 < 0 then (micro.(y := 0), path[1..]) else (micro.(y := micro.y - 1), path)
      else if 30 <= Tile(v, idx.y, idx.x) <= 36 then
        if micro.x - 1 < 0 then (micro.(x := 0), path[1..]) else (micro.(x := micro.x - 1), path)
      else (micro, path[1..])
    else (micro, path)
  }

  /**
   * UpdatePosition on a grid view: one micro-step on each axis toward the
   * head waypoint, then the waypoint test. An empty path changes nothing;
   * each coordinate moves at most one tile toward the head waypoint; only
   * the head waypoint is ever removed, and only once it is reached.
   */
  function Advance(v: seq<seq<int>>, m: Course, nx: int, ny: int): (r: Course)
    requires Rect(v)
    ensures m.path == [] ==> r == m
    ensures m.path != [] ==> Closer(m.index.x, r.index.x, m.path[0].x) && Closer(m.index.y, r.index.y, m.path[0].y)
    ensures r.path == m.path || (m.path != [] && r.index == m.path[0] && r.path == m.path[1..])
    ensures InBox(m.index, Width(v), |v|) && (forall c :: c in m.path ==> InBox(c, Width(v), |v|)) ==>
              InBox(r.index, Width(v), |v|) && forall c :: c in r.path ==> InBox(c, Width(v), |v|)
  {
    if m.path == [] then m
    else
      var w := m.path[0];
      assert w in m.path;
      var sx := AxisStep(m.index.x, m.micro.x, w.x, nx, Width(v));
      var sy := AxisStep(m.index.y, m.micro.y, w.y, ny, |v|);
      var idx := Cell(sx.0, sy.0);
      var a := Arrive(v, idx, Cell(sx.1, sy.1), m.path);
      Course(idx, a.0, a.1)
  }

  // ---------------------------------------------------------------------------
  // InteractWithPlayer and InteractWithMap
  // ---------------------------------------------------------------------------

  /** The source's proximity test: each coordinate within half a tile of the player's. */
  predicate Touching(e: Cell, p: Cell)
  {
    (e.x as real >= p.x as real - 0.5 && e.x as real <= p.x as real + 0.5) &&
    (e.y as real >= p.y as real - 0.5 && e.y as real <= p.y as real + 0.5)
  }

  /** On whole tile indices the half-tile test means standing on the player's tile. */
  lemma TouchingIsSameTile(e: Cell, p: Cell)
    ensures Touching(e, p) <==> e == p
  {
  }

  /**
   * InteractWithMap's effect of the tile under an enemy in state s: a spike
   * (55) is cleared and costs a life; a live (5) is cleared and gives a life
   * (unclamped) in FLEE, and in SUPPORT is cleared into the live item while
   * the item is below its maximum; any other tile does nothing.
   */
  function EnemyPickup(tile: int, s: FSM, item: Item): (t: Take)
    ensures tile != LIVE && tile != SPIKE ==> t == Take(0, item, false)
    ensures t.clears <==> tile == SPIKE || (tile == LIVE && (s == Flee || (s == Support && item.count < item.max)))
    ensures t.lifeDelta == (if tile == SPIKE then -1 else if tile == LIVE && s == Flee then 1 else 0)
    ensures t.item != item ==> tile == LIVE && s == Support && item.count < item.max && t.item == item.(count := item.count + 1)
    ensures item.count <= item.max ==> t.item.count <= t.item.max
  {
    var carry := tile == LIVE && s == Support;
    var t := if tile == LIVE then
               if s == Flee then Take(1, item, true) else Take(0, item, false)
             else if tile == SPIKE then Take(-1, item, true)
             else Take(0, item, false);
    if carry && item.count < item.max then t.(item := item.(count := item.count + 1), clears := true) else t
  }

  // ---------------------------------------------------------------------------
  // FindNearestLive
  // ---------------------------------------------------------------------------

  /** Squared distance: glm::length compared on whole indices orders as this does. */
  function Dist2(a: Cell, b: Cell): int
  {
    (a.x - b.x) * (a.x - b.x) + (a.y - b.y) * (a.y - b.y)
  }

  /** A ledger key with its row flipped, as FindNearestLive reads it. */
  function Flipped(k: (int, int), rows: int): Cell
  {
    Cell(k.0, rows - k.1 - 1)
  }

  /** An AVAILABLE pickup of the ledger, as FindNearestLive sees it, is at c. */
  predicate AvailableAt(ledger: map<(int, int), real>, rows: int, c: Cell)
  {
    exists k :: k in ledger && ledger[k] == AVAILABLE && Flipped(k, rows) == c
  }

  // ---------------------------------------------------------------------------
  // The state machine
  // ---------------------------------------------------------------------------

  /**
   * The state after a tick that began in s and ended with `lives`;
   * `rescued` says SUPPORT's fifth stage ran. One life left always means
   * FLEE; KNOCKOUT is entered only with no lives left; ATTACK only from
   * ATTACK, from FLEE at full lives, or after a rescue.
   */
  function NextState(s: FSM, lives: int, rescued: bool): (r: FSM)
    ensures lives == 1 ==> r == Flee
    ensures r == KnockOut ==> s == KnockOut || lives <= 0
    ensures r == Attack ==> s == Attack || (s == Flee && lives == ENEMY_MAX_LIVES) || (s == Support && rescued)
    ensures r == Support ==> s == Support && !rescued
  {
    match s
    case Attack => if lives == 1 then Flee else Attack
    case Flee => if lives == 2 then Attack else if lives <= 0 then KnockOut else Flee
    case KnockOut => if lives == 1 then Flee else KnockOut
    case Support =>
      var s' := if rescued then Attack else Support;
      if lives == 1 then Flee else if lives <= 0 then KnockOut else s'
  }

  /** The state a SetFSM request selects. */
  function Requested(req: Request): FSM
  {
    match req
    case AttackRequest => Attack
    case FleeRequest => Flee
    case KnockOutRequest => KnockOut
    case SupportRequest => Support
  }

  /**
   * SUPPORT's stage after a tick that began in `stage`, given whether the
   * enemy then stood on its goal (the pickup in stage 2, the knocked-out
   * enemy in stage 4) and the lives it ended with: stages 1 and 3 always
   * move on, 2 and 4 on arrival, any other stage is the rescue and starts
   * over, and one life or none starts over too.
   */
  function StageAfter(stage: int, arrived: bool, lives: int): (r: int)
    ensures 1 <= r <= 5
    ensures lives == 1 || lives <= 0 ==> r == 1
    ensures lives != 1 && lives > 0 && 1 <= stage <= 4 ==>
              (r == stage + 1 <==> stage == 1 || stage == 3 || ((stage == 2 || stage == 4) && arrived))
    ensures lives != 1 && lives > 0 && (stage == 2 || stage == 4) && !arrived ==> r == stage
    ensures lives != 1 && lives > 0 && !(1 <= stage <= 4) ==> r == 1
  {
    var next := if stage == 1 || stage == 3 then stage + 1
                else if stage == 2 || stage == 4 then (if arrived then stage + 1 else stage)
                else 1;
    if lives == 1 || lives <= 0 then 1 else next
  }

  /**
   * The rescue scan of SUPPORT's fifth stage as written: the first position
   * in the enemy list equal to p, or |ps| when there is none.
   */
  function FirstAt(ps: seq<Cell>, p: Cell): (k: nat)
    ensures k <= |ps|
    ensures k < |ps| ==> ps[k] == p
    ensures forall j :: 0 <= j < k ==> ps[j] != p
  {
    if ps == [] then 0
    else if ps[0] == p then 0
    else 1 + FirstAt(ps[1..], p)
  }

  /**
   * The scan as written can pick the helper itself: the helper stands on
   * supportPos when the fifth stage runs, so a helper listed before the
   * knocked-out enemy is the one restored, and the knocked-out one never is.
   */
  lemma HelperShadowsVictim(ps: seq<Cell>, self: nat, victim: nat)
    requires self < victim < |ps| && ps[self] == ps[victim]
    ensures FirstAt(ps, ps[victim]) <= self < victim
  {
  }

  /** Two enemies on one tile, the helper listed first: the helper is restored. */
  lemma RescueRestoresHelper()
    ensures FirstAt([Cell(4, 2), Cell(4, 2)], Cell(4, 2)) == 0
  {
  }

  /**
   * The rescue scan as evidently intended: the first position other than
   * the helper's own (`self`) equal to p, or |ps| when there is none.
   */
  function FirstOtherAt(ps: seq<Cell>, p: Cell, self: int): (k: nat)
    ensures k <= |ps|
    ensures k < |ps| ==> ps[k] == p && k != self
    ensures forall j :: 0 <= j < k && j != self ==> ps[j] != p
    decreases |ps|
  {
    if ps == [] then 0
    else if ps[0] == p && self != 0 then 0
    else 1 + FirstOtherAt(ps[1..], p, self - 1)
  }

  /** With the helper skipped, a knocked-out enemy on supportPos is found whatever the list order. */
  lemma RescueFindsVictim(ps: seq<Cell>, self: int, victim: nat)
    requires victim < |ps| && victim != self
    ensures FirstOtherAt(ps, ps[victim], self) <= victim
  {
  }

  // ---------------------------------------------------------------------------
  // Enemies
  // ---------------------------------------------------------------------------

  /**
   * The map side of CEnemy2D::Init: the first enemy start tile of the
   * level, in storage order, overwritten with the first background tile of
   * its row; no tile changes when the level has no start tile.
   */
  method ClaimStart(tiles: TileMap) returns (found: bool, at: Cell)
    requires tiles.Valid()
    modifies tiles.cells
    ensures found <==> Occurrences(old(tiles.View()), ENEMY_TILE) != {}
    ensures !found ==> unchanged(tiles.cells)
    ensures found ==> tiles.CellInGrid(at) && old(tiles.GetMapInfo(at.y, at.x, DEFAULT_INVERT)) == ENEMY_TILE
    ensures found ==> var v0 := old(tiles.View());
              tiles.View() == v0[at.y := v0[at.y][at.x := tiles.GetMapInfo(at.y, at.x, DEFAULT_INVERT)]]
    ensures found ==> old(tiles.FirstBackground(at.y, 0)) < tiles.Cols() ==>
              tiles.GetMapInfo(at.y, at.x, DEFAULT_INVERT) == old(tiles.GetMapInfo(at.y, tiles.FirstBackground(at.y, 0), DEFAULT_INVERT))
    ensures old(Placeable(tiles.View(), ENEMY_TILE)) ==> Placeable(tiles.View(), ENEMY_TILE)
    ensures found && old(Placeable(tiles.View(), ENEMY_TILE)) ==>
              |Occurrences(tiles.View(), ENEMY_TILE)| == |old(Occurrences(tiles.View(), ENEMY_TILE))| - 1
    ensures !found ==> Occurrences(tiles.View(), ENEMY_TILE) == {}
  {
    ghost var v0 := tiles.View();
    tiles.OccurrencesStored(ENEMY_TILE);
    var row, col;
    found, row, col := tiles.FindValue(ENEMY_TILE, DEFAULT_INVERT);
    at := Cell(col, row);
    if found {
      Overwrite(tiles, row, col);
    }
  }

  /** The found start tile becomes its row's first background tile (Enemy2D.cpp:106-110). */
  method Overwrite(tiles: TileMap, row: int, col: int)
    requires tiles.Valid() && tiles.InGrid(row, col) && tiles.View()[row][col] == ENEMY_TILE
    modifies tiles.cells
    ensures var v0 := old(tiles.View());
              tiles.View() == v0[row := v0[row][col := tiles.GetMapInfo(row, col, DEFAULT_INVERT)]]
    ensures old(tiles.FirstBackground(row, 0)) < tiles.Cols() ==>
              tiles.GetMapInfo(row, col, DEFAULT_INVERT) == old(tiles.GetMapInfo(row, tiles.FirstBackground(row, 0), DEFAULT_INVERT))
    ensures old(Placeable(tiles.View(), ENEMY_TILE)) ==> Placeable(tiles.View(), ENEMY_TILE)
    ensures old(Placeable(tiles.View(), ENEMY_TILE)) ==>
              |Occurrences(tiles.View(), ENEMY_TILE)| == |old(Occurrences(tiles.View(), ENEMY_TILE))| - 1
  {
    ghost var v0 := tiles.View();
    tiles.SetTileValue(row, col);
    if Placeable(v0, ENEMY_TILE) {
      ghost var c' :| 0 <= c' < |v0[row]| && v0[row][c'] <= 3;
      assert old(tiles.FirstBackground(row, 0)) <= c';
      Consumed(v0, row, col, ENEMY_TILE, tiles.GetMapInfo(row, col, DEFAULT_INVERT));
    }
  }

  /**
   * The function-static locals of CEnemy2D::Update, shared by every enemy:
   * the SUPPORT stage and whether a fleeing enemy has chosen its pickup.
   */
  class EnemyStatics {
    var stage: int
    var nearestLiveFound: bool

    constructor ()
      ensures stage == 1 && !nearestLiveFound
    {
      stage := 1;
      nearestLiveFound := false;
    }
  }

  /**
   * CEnemy2D: tile index and micro-steps, waypoints, lives, state, the
   * pickup it heads for, the enemy it is to rescue and its live item.
   */
  class Enemy {
    /** Micro-steps per tile (the settings' count plus two). */
    const stepsX: int
    const stepsY: int
    var index: Cell
    var micro: Cell
    var path: seq<Cell>
    var lives: int
    var fsm: FSM
    var isKnockedOut: bool
    var gotSupport: bool
    /** The enemy's position in the scene's enemy list. */
    var enemyNum: int
    var nearestLive: Cell
    var supportPos: Cell
    /** The player's index when the last Update ended. */
    var playerOldIndex: Cell
    /** The "Enemy n Live" inventory item. */
    var liveItem: Item

    /** The enemy and every waypoint it holds are on the grid. */
    ghost predicate Valid(tiles: TileMap)
      reads this`index, this`path
    {
      tiles.CellInGrid(index) && forall c :: c in path ==> tiles.CellInGrid(c)
    }

    function Progress(): Course
      reads this`index, this`micro, this`path
    {
      Course(index, micro, path)
    }

    /** The constructor: ATTACK, not knocked out, at the origin; the live item holds 0 of 1. */
    constructor (stepsX: int, stepsY: int)
      ensures this.stepsX == stepsX && this.stepsY == stepsY
      ensures fsm == Attack && !isKnockedOut && !gotSupport && path == []
      ensures index == Cell(0, 0) && micro == Cell(0, 0) && liveItem == Item(0, 1)
    {
      this.stepsX := stepsX;
      this.stepsY := stepsY;
      index := Cell(0, 0);
      micro := Cell(0, 0);
      path := [];
      lives := 0;
      fsm := Attack;
      isKnockedOut := false;
      gotSupport := false;
      enemyNum := 0;
      nearestLive := NOT_FOUND;
      supportPos := NO_SUPPORT;
      playerOldIndex := Cell(0, 0);
      liveItem := Item(0, 1);
    }

    /**
     * Init: two lives; finds the first enemy start tile (300) of the level,
     * erases it with its row's first background tile and stands there.
     * Fails, changing no tile, when the level holds no start tile.
     */
    method Init(tiles: TileMap, player: Player, ghost v0: seq<seq<int>>) returns (ok: bool)
      requires tiles.Valid() && tiles.View() == v0
      modifies this`lives, this`index, this`micro, this`nearestLive, this`supportPos
      modifies this`isKnockedOut, this`gotSupport, this`playerOldIndex, tiles.cells
      ensures ok <==> Occurrences(v0, ENEMY_TILE) != {}
      ensures !ok ==> unchanged(tiles.cells)
      ensures ok ==> tiles.CellInGrid(index)
      ensures Placeable(v0, ENEMY_TILE) ==> Placeable(tiles.View(), ENEMY_TILE)
      ensures ok && Placeable(v0, ENEMY_TILE) ==>
                |Occurrences(tiles.View(), ENEMY_TILE)| == |Occurrences(v0, ENEMY_TILE)| - 1
      ensures !ok ==> Occurrences(tiles.View(), ENEMY_TILE) == {}
      ensures lives == ENEMY_MAX_LIVES
      ensures ok ==> micro == Cell(0, 0) && nearestLive == NOT_FOUND && supportPos == NO_SUPPORT
      ensures ok ==> !isKnockedOut && !gotSupport && playerOldIndex == player.index
      ensures path == old(path) && fsm == old(fsm) && enemyNum == old(enemyNum)
    {
      var found, at := ClaimStart(tiles);
      ghost var v1 := tiles.View();
      lives := ENEMY_MAX_LIVES;
      if found {
        Stand(at, player.index);
      }
      assert tiles.View() == v1;
      ok := found;
    }

    /** The fields Init sets once the enemy has its start tile. */
    method Stand(at: Cell, playerAt: Cell)
      modifies this`index, this`micro, this`nearestLive, this`supportPos
      modifies this`isKnockedOut, this`gotSupport, this`playerOldIndex
      ensures index == at && playerOldIndex == playerAt && micro == Cell(0, 0)
      ensures nearestLive == NOT_FOUND && supportPos == NO_SUPPORT && !isKnockedOut && !gotSupport
      ensures path == old(path) && fsm == old(fsm) && enemyNum == old(enemyNum) && lives == old(lives)
    {
      playerOldIndex := playerAt;
      index := at;
      micro := Cell(0, 0);
      nearestLive := NOT_FOUND;
      supportPos := NO_SUPPORT;
      isKnockedOut := false;
      gotSupport := false;
    }

    /** SetEnemyNum. */
    method SetEnemyNum(num: int)
      modifies this`enemyNum
      ensures enemyNum == num
    {
      enemyNum := num;
    }

    /** AddLives: adds n, capped at two lives and with no lower bound. */
    method AddLives(n: int)
      modifies this`lives
      ensures lives == if old(lives) + n > ENEMY_MAX_LIVES then ENEMY_MAX_LIVES else old(lives) + n
    {
      lives := lives + n;
      if lives > ENEMY_MAX_LIVES {
        lives := ENEMY_MAX_LIVES;
      }
    }

    /**
     * SetFSM: switches to the requested state and records the rescue
     * target; only a KnockOut request marks the enemy knocked out.
     */
    method SetFSM(req: Request, pos: Cell)
      modifies this`fsm, this`isKnockedOut, this`supportPos
      ensures fsm == Requested(req) && supportPos == pos
      ensures isKnockedOut == (old(isKnockedOut) || req == KnockOutRequest)
    {
      match req {
        case AttackRequest => fsm := Attack;
        case FleeRequest => fsm := Flee;
        case KnockOutRequest =>
          isKnockedOut := true;
          fsm := KnockOut;
        case SupportRequest => fsm := Support;
      }
      supportPos := pos;
    }

    /** SetTileValue: the enemy's tile becomes its row's first background tile, if the row has one. */
    method SetTileValue(tiles: TileMap)
      requires tiles.LevelOK() && tiles.CellInGrid(index)
      modifies tiles.cells
      ensures old(tiles.FirstBackground(index.y, 0)) < tiles.Cols() ==>
                tiles.GetMapInfo(index.y, index.x, DEFAULT_INVERT) == old(tiles.GetMapInfo(index.y, tiles.FirstBackground(index.y, 0), DEFAULT_INVERT)) &&
                tiles.TilesUnchangedExcept(tiles.curLevel, tiles.StorageRow(index.y, DEFAULT_INVERT), index.x)
      ensures old(tiles.FirstBackground(index.y, 0)) == tiles.Cols() ==> unchanged(tiles.cells)
    {
      tiles.SetTileValue(index.y, index.x);
    }

    /** One axis of UpdatePosition's step: see AxisStep. */
    static method StepAxis(idx: int, micro: int, toward: int, n: int, bound: int) returns (idx': int, micro': int)
      ensures (idx', micro') == AxisStep(idx, micro, toward, n, bound)
    {
      idx', micro' := idx, micro;
      if toward < idx' {
        if idx' >= 0 {
          micro' := micro' - 1;
          if micro' < 0 {
            micro' := n;
            idx' := idx' - 1;
          }
        }
      } else if toward > idx' {
        if idx' < bound {
          micro' := micro' + 1;
          if micro' >= n {
            micro' := 0;
            idx' := idx' + 1;
          }
        }
      }
    }

    /**
     * UpdatePosition: see Advance; the bounds of the step are the grid's
     * columns and rows.
     */
    method UpdatePosition(tiles: TileMap, ghost v: seq<seq<int>>)
      requires tiles.Loaded() && tiles.Shows(v)
      modifies this`index, this`micro, this`path
      ensures Progress() == Advance(v, old(Progress()), stepsX, stepsY)
    {
      var idx, mic, p := index, micro, path;
      if |p| > 0 {
        var w := p[0];
        var ix, mx := StepAxis(idx.x, mic.x, w.x, stepsX, tiles.Cols());
        var iy, my := StepAxis(idx.y, mic.y, w.y, stepsY, tiles.Rows());
        idx, mic := Cell(ix, iy), Cell(mx, my);
        tiles.ProbeShown(v, idx.y - 1, idx.x);
        tiles.ProbeShown(v, idx.y, idx.x);
        ghost var a := Arrive(v, idx, mic, p);
        if idx == w {
          if 100 <= tiles.Probe(idx.y - 1, idx.x) <= 120 {
            mic := mic.(y := mic.y - 1);
            if mic.y < 0 {
              mic := mic.(y := 0);
              p := p[1..];
            }
          } else if 30 <= tiles.Probe(idx.y, idx.x) <= 36 {
            mic := mic.(x := mic.x - 1);
            if mic.x < 0 {
              mic := mic.(x := 0);
              p := p[1..];
            }
          } else {
            p := p[1..];
          }
        }
        assert (mic, p) == a;
        assert Course(idx, mic, p) == Advance(v, Course(index, micro, path), stepsX, stepsY);
      }
      index, micro, path := idx, mic, p;
    }

    /**
     * InteractWithPlayer: an enemy on the player's tile costs the player a
     * life (subject to the player's damage cooldown) unless the player is
     * invisible; reports whether it did.
     */
    method InteractWithPlayer(player: Player) returns (hit: bool)
      modifies player`lives, player`lastHit
      ensures hit <==> index == player.index && !player.isInvisible
      ensures (player.lives, player.lastHit) ==
                if hit then LivesAfter(old(player.lives), old(player.lastHit), player.time, -1)
                else (old(player.lives), old(player.lastHit))
    {
      var p := player.index;
      TouchingIsSameTile(index, p);
      if Touching(index, p) {
        if player.isInvisible {
          return false;
        }
        player.AddLives(-1);
        return true;
      }
      return false;
    }

    /**
     * InteractWithMap: a live tile is stamped in the pickup ledger whatever
     * the state; the rest is EnemyPickup of the tile under the enemy. Only
     * that tile can change, and it changes exactly when the pickup clears it.
     */
    method InteractWithMap(tiles: TileMap, ghost v: seq<seq<int>>)
      requires tiles.Loaded() && tiles.LedgerOK() && tiles.Shows(v) && tiles.CellInGrid(index)
      modifies tiles.cells, tiles`liveMap, this`lives, this`liveItem
      ensures tiles.LedgerOK()
      ensures tiles.liveMap == if Tile(v, index.y, index.x) == LIVE then old(tiles.liveMap)[(index.x, index.y) := tiles.time]
                               else old(tiles.liveMap)
      ensures lives == old(lives) + EnemyPickup(Tile(v, index.y, index.x), fsm, old(liveItem)).lifeDelta
      ensures liveItem == EnemyPickup(Tile(v, index.y, index.x), fsm, old(liveItem)).item
      ensures tiles.TilesUnchangedExcept(tiles.curLevel, tiles.StorageRow(index.y, DEFAULT_INVERT), index.x)
      ensures !EnemyPickup(Tile(v, index.y, index.x), fsm, old(liveItem)).clears ==> unchanged(tiles.cells)
      ensures EnemyPickup(Tile(v, index.y, index.x), fsm, old(liveItem)).clears && old(tiles.FirstBackground(index.y, 0)) < tiles.Cols() ==>
                tiles.GetMapInfo(index.y, index.x, DEFAULT_INVERT) == old(tiles.GetMapInfo(index.y, tiles.FirstBackground(index.y, 0), DEFAULT_INVERT))
    {
      tiles.ProbeShown(v, index.y, index.x);
      var tile := tiles.GetMapInfo(index.y, index.x, DEFAULT_INVERT);
      var carry := false;
      if tile == LIVE {
        tiles.StampLive(index.x, index.y);
        if fsm == Flee {
          SetTileValue(tiles);
          lives := lives + 1;
        } else if fsm == Support {
          carry := true;
        }
      } else if tile == SPIKE {
        SetTileValue(tiles);
        lives := lives - 1;
      }
      if carry && liveItem.count < liveItem.max {
        SetTileValue(tiles);
        liveItem := liveItem.(count := liveItem.count + 1);
      }
    }

    /**
     * FindNearestLive: moves nearestLive to the nearest AVAILABLE pickup of
     * the ledger (its row flipped) that is strictly nearer than the current
     * one; otherwise leaves it.
     */
    method FindNearestLive(tiles: TileMap)
      modifies this`nearestLive
      ensures nearestLive == old(nearestLive) || AvailableAt(tiles.liveMap, tiles.Rows(), nearestLive)
      ensures nearestLive != old(nearestLive) ==> Dist2(nearestLive, index) < Dist2(old(nearestLive), index)
      ensures Dist2(nearestLive, index) <= Dist2(old(nearestLive), index)
      ensures forall k :: k in tiles.liveMap && tiles.liveMap[k] == AVAILABLE ==>
                Dist2(nearestLive, index) <= Dist2(Flipped(k, tiles.Rows()), index)
    {
      var todo := tiles.liveMap.Keys;
      while todo != {}
        invariant todo <= tiles.liveMap.Keys
        invariant nearestLive == old(nearestLive) || AvailableAt(tiles.liveMap, tiles.Rows(), nearestLive)
        invariant nearestLive != old(nearestLive) ==> Dist2(nearestLive, index) < Dist2(old(nearestLive), index)
        invariant Dist2(nearestLive, index) <= Dist2(old(nearestLive), index)
        invariant forall k :: k in tiles.liveMap && k !in todo && tiles.liveMap[k] == AVAILABLE ==>
                    Dist2(nearestLive, index) <= Dist2(Flipped(k, tiles.Rows()), index)
        decreases todo
      {
        var k :| k in todo;
        if tiles.liveMap[k] == AVAILABLE {
          var cand := Flipped(k, tiles.Rows());
          if Dist2(cand, index) < Dist2(nearestLive, index) {
            nearestLive := cand;
          }
        }
        todo := todo - {k};
      }
    }

    /**
     * The calls each moving state makes in turn: UpdatePosition,
     * InteractWithPlayer, then InteractWithMap on the tile reached.
     */
    method Act(tiles: TileMap, ghost v: seq<seq<int>>, player: Player)
      requires tiles.Loaded() && tiles.LedgerOK() && tiles.Shows(v) && Valid(tiles)
      modifies this`index, this`micro, this`path, this`lives, this`liveItem
      modifies player`lives, player`lastHit, tiles.cells, tiles`liveMap
      ensures Valid(tiles) && tiles.LedgerOK()
      ensures Progress() == Advance(v, old(Progress()), stepsX, stepsY)
      ensures lives == old(lives) + EnemyPickup(Tile(v, index.y, index.x), fsm, old(liveItem)).lifeDelta
      ensures player.lives <= old(player.lives)
    {
      UpdatePosition(tiles, v);
      var _ := InteractWithPlayer(player);
      InteractWithMap(tiles, v);
    }

    /**
     * Replaces the path by an A* search from the enemy's tile to `target`
     * (euclidean heuristic, weight 10); the map and the enemy's tile stay as
     * they are. A target reachable over passable cells gets a walk to it,
     * except a diagonal neighbour in eight-direction mode.
     */
    method Replan(tiles: TileMap, ghost v: seq<seq<int>>, target: Cell)
      requires tiles.Valid() && tiles.Shows(v) && Valid(tiles)
      modifies this`path
      modifies tiles`startPos, tiles`targetPos, tiles`weight, tiles`heuristic
      modifies tiles`openList, tiles`cameFrom, tiles`closed, tiles`closeRank, tiles`closeCount
      ensures tiles.Valid() && tiles.Shows(v) && Valid(tiles)
      ensures path != [] ==> path[|path| - 1] == target
      ensures !tiles.CellInGrid(target) ==> path == []
      ensures tiles.CellInGrid(index) && !tiles.IsBlocked(index.y, index.x, DEFAULT_INVERT) && index != target &&
              tiles.Reachable(index, target) && !(tiles.nrOfDirections == 8 && Diagonal(index, target)) ==>
                path != [] && IsWalk(tiles.nrOfDirections, index, path, target)
    {
      path := tiles.PathFind(index, target, Euclidean, PATH_WEIGHT);
    }

    method UpdateAttack(tiles: TileMap, ghost v: seq<seq<int>>, player: Player)
      requires tiles.Valid() && tiles.Shows(v) && Valid(tiles) && fsm == Attack
      modifies this`index, this`micro, this`path, this`lives, this`liveItem, this`fsm
      modifies player`lives, player`lastHit, tiles.cells, tiles`liveMap
      modifies tiles`startPos, tiles`targetPos, tiles`weight, tiles`heuristic
      modifies tiles`openList, tiles`cameFrom, tiles`closed, tiles`closeRank, tiles`closeCount
      ensures tiles.Valid() && Valid(tiles) && player.lives <= old(player.lives)
      ensures lives == old(lives) + EnemyPickup(Tile(v, index.y, index.x), Attack, old(liveItem)).lifeDelta
      ensures fsm == NextState(Attack, lives, false)
      ensures player.index == playerOldIndex ==> Progress() == Advance(v, old(Progress()), stepsX, stepsY)
    {
      Chase(tiles, v, player);
      Act(tiles, v, player);
      fsm := if lives == 1 then Flee else Attack;
    }

    /** ATTACK's re-planning: a new path to the player only when the player has changed tile since the last tick. */
    method Chase(tiles: TileMap, ghost v: seq<seq<int>>, player: Player)
      requires tiles.Valid() && tiles.Shows(v) && Valid(tiles)
      modifies this`path
      modifies tiles`startPos, tiles`targetPos, tiles`weight, tiles`heuristic
      modifies tiles`openList, tiles`cameFrom, tiles`closed, tiles`closeRank, tiles`closeCount
      ensures tiles.Valid() && tiles.Shows(v) && Valid(tiles)
      ensures player.index == playerOldIndex ==> path == old(path)
      ensures player.index != playerOldIndex && path != [] ==> path[|path| - 1] == player.index
    {
      if player.index != playerOldIndex {
        Replan(tiles, v, player.index);
      }
    }

    /**
     * FLEE: until a pickup has been chosen (shared by all enemies), looks
     * for the nearest available one and plans a path to it; acts; at full
     * lives returns to ATTACK, with none left is knocked out and awaits
     * support; either way the choice is cleared.
     */
    method UpdateFlee(tiles: TileMap, ghost v: seq<seq<int>>, player: Player, statics: EnemyStatics)
      requires tiles.Valid() && tiles.Shows(v) && Valid(tiles) && fsm == Flee
      modifies this`index, this`micro, this`path, this`lives, this`liveItem, this`fsm
      modifies this`nearestLive, this`isKnockedOut, this`gotSupport, statics`nearestLiveFound
      modifies player`lives, player`lastHit, tiles.cells, tiles`liveMap
      modifies tiles`startPos, tiles`targetPos, tiles`weight, tiles`heuristic
      modifies tiles`openList, tiles`cameFrom, tiles`closed, tiles`closeRank, tiles`closeCount
      ensures tiles.Valid() && Valid(tiles) && player.lives <= old(player.lives)
      ensures lives == old(lives) + EnemyPickup(Tile(v, index.y, index.x), Flee, old(liveItem)).lifeDelta
      ensures fsm == NextState(Flee, lives, false)
      ensures fsm == KnockOut ==> isKnockedOut && !gotSupport
      ensures fsm != KnockOut ==> isKnockedOut == old(isKnockedOut) && gotSupport == old(gotSupport)
      ensures fsm != Flee ==> !statics.nearestLiveFound && nearestLive == NOT_FOUND
      ensures fsm == Flee && old(statics.nearestLiveFound) ==> statics.nearestLiveFound && nearestLive == old(nearestLive)
      ensures fsm == Flee && !old(statics.nearestLiveFound) ==> statics.nearestLiveFound == (nearestLive != NOT_FOUND)
    {
      SeekLive(tiles, v, statics);
      Act(tiles, v, player);
      LeaveFlee(statics);
    }

    /** FLEE's search, made once per flight: aim at the nearest available live when there is one. */
    method SeekLive(tiles: TileMap, ghost v: seq<seq<int>>, statics: EnemyStatics)
      requires tiles.Valid() && tiles.Shows(v) && Valid(tiles)
      modifies this`nearestLive, this`path, statics`nearestLiveFound
      modifies tiles`startPos, tiles`targetPos, tiles`weight, tiles`heuristic
      modifies tiles`openList, tiles`cameFrom, tiles`closed, tiles`closeRank, tiles`closeCount
      ensures tiles.Valid() && tiles.Shows(v) && Valid(tiles)
      ensures old(statics.nearestLiveFound) ==>
                statics.nearestLiveFound && nearestLive == old(nearestLive) && path == old(path)
      ensures !old(statics.nearestLiveFound) ==> statics.nearestLiveFound == (nearestLive != NOT_FOUND)
      ensures !old(statics.nearestLiveFound) && nearestLive != NOT_FOUND && path != [] ==> path[|path| - 1] == nearestLive
    {
      if !statics.nearestLiveFound {
        FindNearestLive(tiles);
        if nearestLive != NOT_FOUND {
          statics.nearestLiveFound := true;
          Replan(tiles, v, nearestLive);
        }
      }
    }

    /** The end of a FLEE tick: back to ATTACK at full lives, knocked out at none, the search reset on either. */
    method LeaveFlee(statics: EnemyStatics)
      requires fsm == Flee
      modifies this`fsm, this`nearestLive, this`isKnockedOut, this`gotSupport, statics`nearestLiveFound
      ensures fsm == NextState(Flee, lives, false)
      ensures fsm == KnockOut ==> isKnockedOut && !gotSupport
      ensures fsm != KnockOut ==> isKnockedOut == old(isKnockedOut) && gotSupport == old(gotSupport)
      ensures fsm != Flee ==> !statics.nearestLiveFound && nearestLive == NOT_FOUND
      ensures fsm == Flee ==> statics.nearestLiveFound == old(statics.nearestLiveFound) && nearestLive == old(nearestLive)
    {
      if lives == 2 || lives <= 0 {
        statics.nearestLiveFound := false;
        nearestLive := NOT_FOUND;
        if lives == 2 {
          fsm := Attack;
        } else {
          isKnockedOut := true;
          gotSupport := false;
          fsm := KnockOut;
        }
      }
    }

    /** The positions of a list of enemies, in order. */
    static function Positions(es: seq<Enemy>): (ps: seq<Cell>)
      reads es
      ensures |ps| == |es| && forall i :: 0 <= i < |es| ==> ps[i] == es[i].index
    {
      seq(|es|, i requires 0 <= i < |es| reads es => es[i].index)
    }

    /** The scene's enemy list holds this enemy at its own number, and no enemy twice. */
    ghost predicate Registered(es: seq<Enemy>)
      reads this`enemyNum
    {
      0 <= enemyNum < |es| && es[enemyNum] == this &&
      forall i, j :: 0 <= i < j < |es| ==> es[i] != es[j]
    }

    /**
     * SUPPORT's fifth stage: one live leaves the helper's item, and the
     * first other enemy standing on supportPos is restored: a life more
     * (capped), no longer knocked out or waiting, fleeing, with no support
     * position. k is its place in the list, |es| when none stands there;
     * every other enemy is left as it was, and so is the helper but for its item.
     */
    method Rescue(es: seq<Enemy>) returns (k: nat)
      requires Registered(es)
      modifies this`liveItem, es`lives, es`isKnockedOut, es`gotSupport, es`fsm, es`supportPos
      ensures liveItem == old(liveItem).(count := old(liveItem).count - 1)
      ensures k == FirstOtherAt(Positions(es), old(supportPos), enemyNum)
      ensures k < |es| ==> es[k].lives == (if old(es[k].lives) + 1 > ENEMY_MAX_LIVES then ENEMY_MAX_LIVES else old(es[k].lives) + 1)
      ensures k < |es| ==> !es[k].isKnockedOut && !es[k].gotSupport && es[k].fsm == Flee && es[k].supportPos == NO_SUPPORT
      ensures forall j :: 0 <= j < |es| && j != k && j != enemyNum ==> unchanged(es[j])
      ensures lives == old(lives) && fsm == old(fsm) && supportPos == old(supportPos)
      ensures isKnockedOut == old(isKnockedOut) && gotSupport == old(gotSupport)
    {
      liveItem := liveItem.(count := liveItem.count - 1);
      var pos := supportPos;
      k := 0;
      while k < |es| && (k == enemyNum || es[k].index != pos)
        invariant k <= |es|
        invariant forall j :: 0 <= j < k && j != enemyNum ==> es[j].index != pos
      {
        k := k + 1;
      }
      if k < |es| {
        var e := es[k];
        e.AddLives(1);
        e.isKnockedOut := false;
        e.gotSupport := false;
        e.SetFSM(FleeRequest, NO_SUPPORT);
      }
    }

    method UpdateKnockOut()
      requires fsm == KnockOut
      modifies this`fsm
      ensures fsm == NextState(KnockOut, lives, false)
    {
      if lives == 1 {
        fsm := Flee;
      }
    }

    /**
     * SUPPORT's first four stages: plan a path to the nearest pickup, walk
     * it, plan a path to the knocked-out enemy, walk it; a walking stage
     * moves on once the enemy stands on its goal, a planning stage at once.
     */
    method Travel(tiles: TileMap, ghost v: seq<seq<int>>, player: Player, statics: EnemyStatics)
      requires tiles.Valid() && tiles.Shows(v) && Valid(tiles) && 1 <= statics.stage <= 4
      modifies this`index, this`micro, this`path, this`lives, this`liveItem, this`nearestLive, statics`stage
      modifies player`lives, player`lastHit, tiles.cells, tiles`liveMap
      modifies tiles`startPos, tiles`targetPos, tiles`weight, tiles`heuristic
      modifies tiles`openList, tiles`cameFrom, tiles`closed, tiles`closeRank, tiles`closeCount
      ensures tiles.Valid() && Valid(tiles) && player.lives <= old(player.lives)
      ensures statics.stage == old(statics.stage) +
                if old(statics.stage) == 1 || old(statics.stage) == 3 ||
                   index == (if old(statics.stage) == 2 then nearestLive else supportPos) then 1 else 0
      ensures old(statics.stage) != 1 ==> nearestLive == old(nearestLive)
      ensures old(statics.stage) == 1 && path != [] ==> path[|path| - 1] == nearestLive
      ensures old(statics.stage) == 3 && path != [] ==> path[|path| - 1] == supportPos
    {
      if statics.stage == 1 {
        FindNearestLive(tiles);
        Replan(tiles, v, nearestLive);
        statics.stage := 2;
      } else if statics.stage == 2 {
        Act(tiles, v, player);
        if index == nearestLive {
          statics.stage := 3;
        }
      } else if statics.stage == 3 {
        Replan(tiles, v, supportPos);
        statics.stage := 4;
      } else {
        Act(tiles, v, player);
        if index == supportPos {
          statics.stage := 5;
        }
      }
    }

    /**
     * SUPPORT: travels through the first four stages (the stage is shared by
     * all enemies), rescues in any other and returns to ATTACK; one life left
     * means FLEE and none KNOCKOUT, and either starts the stages over and
     * forgets both goals. Entering KNOCKOUT from here leaves isKnockedOut as it was.
     */
    method UpdateSupport(tiles: TileMap, ghost v: seq<seq<int>>, player: Player, statics: EnemyStatics, es: seq<Enemy>)
      requires tiles.Valid() && tiles.Shows(v) && Valid(tiles) && fsm == Support && Registered(es)
      modifies this`index, this`micro, this`path, this`lives, this`liveItem, this`fsm
      modifies this`nearestLive, this`supportPos, statics`stage
      modifies player`lives, player`lastHit, tiles.cells, tiles`liveMap
      modifies tiles`startPos, tiles`targetPos, tiles`weight, tiles`heuristic
      modifies tiles`openList, tiles`cameFrom, tiles`closed, tiles`closeRank, tiles`closeCount
      modifies es`lives, es`isKnockedOut, es`gotSupport, es`fsm, es`supportPos
      ensures tiles.Valid() && Valid(tiles) && player.lives <= old(player.lives)
      ensures fsm == NextState(Support, lives, !(1 <= old(statics.stage) <= 4))
      ensures statics.stage == StageAfter(old(statics.stage),
                index == (if old(statics.stage) == 2 then old(nearestLive) else old(supportPos)), lives)
      ensures fsm != Support ==> nearestLive == NOT_FOUND && supportPos == NO_SUPPORT
      ensures isKnockedOut == old(isKnockedOut) && gotSupport == old(gotSupport)
    {
      if 1 <= statics.stage <= 4 {
        Travel(tiles, v, player, statics);
      } else {
        Rejoin(es, statics);
      }
      LeaveSupport(statics);
    }

    /** SUPPORT past its fourth stage: the rescue, then back to ATTACK with the stages started over and both goals forgotten. */
    method Rejoin(es: seq<Enemy>, statics: EnemyStatics)
      requires Registered(es)
      modifies this`liveItem, this`fsm, this`nearestLive, this`supportPos, statics`stage
      modifies es`lives, es`isKnockedOut, es`gotSupport, es`fsm, es`supportPos
      ensures fsm == Attack && statics.stage == 1 && nearestLive == NOT_FOUND && supportPos == NO_SUPPORT
      ensures lives == old(lives) && isKnockedOut == old(isKnockedOut) && gotSupport == old(gotSupport)
    {
      var _ := Rescue(es);
      fsm := Attack;
      statics.stage := 1;
      nearestLive := NOT_FOUND;
      supportPos := NO_SUPPORT;
    }

    /** The end of a SUPPORT tick: one life left means FLEE and none KNOCKOUT, either with the stages started over and both goals forgotten. */
    method LeaveSupport(statics: EnemyStatics)
      modifies this`fsm, this`nearestLive, this`supportPos, statics`stage
      ensures lives == 1 ==> fsm == Flee
      ensures lives <= 0 ==> fsm == KnockOut
      ensures lives == 1 || lives <= 0 ==> statics.stage == 1 && nearestLive == NOT_FOUND && supportPos == NO_SUPPORT
      ensures lives != 1 && lives > 0 ==> unchanged(this`fsm, this`nearestLive, this`supportPos, statics`stage)
    {
      if lives == 1 || lives <= 0 {
        statics.stage := 1;
        nearestLive := NOT_FOUND;
        supportPos := NO_SUPPORT;
        fsm := if lives == 1 then Flee else KnockOut;
      }
    }

    /**
     * CEnemy2D::Update: one tick of the current state, after which the
     * player's index is remembered for ATTACK's next re-planning.
     */
    method Update(tiles: TileMap, ghost v: seq<seq<int>>, player: Player, statics: EnemyStatics, es: seq<Enemy>)
      requires tiles.Valid() && tiles.Shows(v) && Valid(tiles) && Registered(es)
      modifies this`index, this`micro, this`path, this`lives, this`liveItem, this`fsm, this`playerOldIndex
      modifies this`nearestLive, this`supportPos, this`isKnockedOut, this`gotSupport
      modifies statics`stage, statics`nearestLiveFound
      modifies player`lives, player`lastHit, tiles.cells, tiles`liveMap
      modifies tiles`startPos, tiles`targetPos, tiles`weight, tiles`heuristic
      modifies tiles`openList, tiles`cameFrom, tiles`closed, tiles`closeRank, tiles`closeCount
      modifies es`lives, es`isKnockedOut, es`gotSupport, es`fsm, es`supportPos
      ensures tiles.Valid() && Valid(tiles) && playerOldIndex == player.index && player.lives <= old(player.lives)
      ensures fsm == NextState(old(fsm), lives, old(fsm) == Support && !(1 <= old(statics.stage) <= 4))
      ensures old(fsm) == Attack || old(fsm) == Flee ==>
                lives == old(lives) + EnemyPickup(Tile(v, index.y, index.x), old(fsm), old(liveItem)).lifeDelta
      ensures old(fsm) == KnockOut ==> lives == old(lives)
    {
      match fsm {
        case Attack => UpdateAttack(tiles, v, player);
        case Flee => UpdateFlee(tiles, v, player, statics);
        case KnockOut => UpdateKnockOut();
        case Support => UpdateSupport(tiles, v, player, statics, es);
      }
      playerOldIndex := player.index;
    }
  }
}
