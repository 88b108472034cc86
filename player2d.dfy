/**
 * The player of the 2D scene (App/Source/Scene2D/Player2D.cpp): a tile index
 * with a micro-step offset per axis, moved by the keys held this tick,
 * kept inside the grid, tested against solid tiles, and interacting with
 * the tiles it stands on (pickups, the exit door, spikes it places).
 *
 * The tile map is passed to every operation that reads or writes it. The
 * player's row is in inverted addressing (row 0 is the bottom row), as the
 * tile map's default. A probe outside the grid reads as a solid tile.
 */
module Player2D {
  import opened Map2D

  /** The direction of a move, a clamp or a collision test. */
  datatype Direction = Left | Right | Up | Down

  /** The physics status of the player (CPhysics2D::STATUS, declared outside this model). */
  datatype Status = Idle | Jump | Fall | Climb

  /** The movement keys held this tick: A, D, W and S. */
  datatype Intent = Intent(left: bool, right: bool, up: bool, down: bool)

  /** The player's inventory items, by name. */
  datatype ItemName = PlayerLive | Key | Speed | Invisibility | SpikeItem

  /** An inventory item: how many are held and how many may be. */
  datatype Item = Item(count: int, max: int)

  const MAX_LIVES := 5
  /** The tile that marks the player's start; it must occur exactly once in the level. */
  const PLAYER_TILE := 200
  /** Damage within this many seconds of the last damage taken is ignored. */
  const COOLDOWN_TIME: real := 3.0

  /** Tile codes the player reacts to. */
  const KEY_TILE := 10
  const SPEED_TILE := 15
  const INVISIBILITY_TILE := 20
  const EXIT_DOOR := 25
  const SPIKE_PICKUP := 60
  const LADDER_MID := 35
  const LADDER_TOP_ALT := 36

  /** The item standing on a tile gives; the exit door and plain tiles give none. */
  function PickupOf(tile: int): (r: Option<ItemName>)
    ensures r.Some? <==> tile in {LIVE, KEY_TILE, SPEED_TILE, INVISIBILITY_TILE, SPIKE_PICKUP}
    ensures r == Some(PlayerLive) <==> tile == LIVE
  {
    if tile == LIVE then Some(PlayerLive)
    else if tile == KEY_TILE then Some(Key)
    else if tile == SPEED_TILE then Some(Speed)
    else if tile == INVISIBILITY_TILE then Some(Invisibility)
    else if tile == SPIKE_PICKUP then Some(SpikeItem)
    else None
  }

  /** Every item the player can hold has an inventory entry. */
  predicate Stocked(inv: map<ItemName, Item>)
  {
    PlayerLive in inv && Key in inv && Speed in inv && Invisibility in inv && SpikeItem in inv
  }

  /**
   * The inventory after standing on a tile: the item the tile gives goes up
   * by one while it is below its maximum; nothing else changes.
   */
  function Collected(tile: int, inv: map<ItemName, Item>): (r: map<ItemName, Item>)
    requires Stocked(inv)
    ensures Stocked(r) && r.Keys == inv.Keys
    ensures forall k :: k in r && r[k] != inv[k] ==>
              PickupOf(tile) == Some(k) && inv[k].count < inv[k].max &&
              r[k] == inv[k].(count := inv[k].count + 1)
    ensures PickupOf(tile).Some? && inv[PickupOf(tile).value].count < inv[PickupOf(tile).value].max ==> r != inv
  {
    match PickupOf(tile)
    case Some(k) =>
      if inv[k].count < inv[k].max then inv[k := inv[k].(count := inv[k].count + 1)] else inv
    case None => inv
  }

  /** A ladder tile the player may climb on. */
  predicate IsLadder(tile: int)
  {
    tile == LADDER_TOP_ALT || tile == LADDER_MID || tile == LADDER_TOP
  }

  /** The flags of the game manager that the player and the scene set. */
  class GameManager {
    var playerWon: bool
    var playerLost: bool
    var levelCompleted: bool

    constructor ()
      ensures !playerWon && !playerLost && !levelCompleted
    {
      playerWon := false;
      playerLost := false;
      levelCompleted := false;
    }
  }

  /**
   * Constraint's clamp for one direction: a left move keeps x >= 0, a right
   * move keeps x <= cols - 1, an up move keeps y <= rows - 1 and a down move
   * keeps y >= 0; the clamped axis loses its micro-step. The right and up
   * clamps also fire on the last column or row itself.
   */
  function Clamp(dir: Direction, index: Cell, micro: Cell, cols: int, rows: int): (r: (Cell, Cell))
    ensures dir == Left ==> r.0.x >= 0 && r.0.y == index.y && r.1.y == micro.y
    ensures dir == Right ==> r.0.x <= cols - 1 && r.0.y == index.y && r.1.y == micro.y
    ensures dir == Up ==> r.0.y <= rows - 1 && r.0.x == index.x && r.1.x == micro.x
    ensures dir == Down ==> r.0.y >= 0 && r.0.x == index.x && r.1.x == micro.x
    ensures r.0 != index ==> r.1 != micro || (dir in {Left, Right} && micro.x == 0) || (dir in {Up, Down} && micro.y == 0)
    ensures ((dir == Left && index.x >= 0) || (dir == Right && index.x < cols - 1) ||
             (dir == Up && index.y < rows - 1) || (dir == Down && index.y >= 0)) ==> r == (index, micro)
  {
    match dir
    case Left => if index.x < 0 then (index.(x := 0), micro.(x := 0)) else (index, micro)
    case Right => if index.x >= cols - 1 then (index.(x := cols - 1), micro.(x := 0)) else (index, micro)
    case Up => if index.y >= rows - 1 then (index.(y := rows - 1), micro.(y := 0)) else (index, micro)
    case Down => if index.y < 0 then (index.(y := 0), micro.(y := 0)) else (index, micro)
  }

  /** Clamping twice is clamping once. */
  lemma ClampIdempotent(dir: Direction, index: Cell, micro: Cell, cols: int, rows: int)
    requires cols >= 1 && rows >= 1
    ensures var r := Clamp(dir, index, micro, cols, rows);
            Clamp(dir, r.0, r.1, cols, rows) == r
  {
  }

  /** The boundary colour test of Constraint: left, right or top edge, or below the grid. */
  predicate OnBoundary(index: Cell, cols: int, rows: int)
  {
    index.x <= 0 || index.x >= cols - 1 || index.y >= rows - 1 || index.y < 0
  }

  /**
   * The tiles CheckPosition examines: the tile the move leads into and,
   * when the perpendicular micro-step straddles two rows or columns, the
   * next one across. Right and up moves at the last column or row examine
   * nothing.
   */
  function Examined(dir: Direction, index: Cell, micro: Cell, cols: int, rows: int): (r: seq<Cell>)
    ensures (dir == Right && index.x >= cols - 1) || (dir == Up && index.y >= rows - 1) ==> r == []
    ensures (dir == Left || dir == Down) ==> r != [] && r[0] == index
    ensures dir == Right && index.x < cols - 1 ==> r != [] && r[0] == Cell(index.x + 1, index.y)
    ensures dir == Up && index.y < rows - 1 ==> r != [] && r[0] == Cell(index.x, index.y + 1)
    ensures r != [] ==> |r| == if (dir in {Left, Right} && micro.y != 0) || (dir in {Up, Down} && micro.x != 0) then 2 else 1
  {
    match dir
    case Left =>
      if micro.y == 0 then [index] else [index, Cell(index.x, index.y + 1)]
    case Right =>
      if index.x >= cols - 1 then []
      else if micro.y == 0 then [Cell(index.x + 1, index.y)]
      else [Cell(index.x + 1, index.y), Cell(index.x + 1, index.y + 1)]
    case Up =>
      if index.y >= rows - 1 then []
      else if micro.x == 0 then [Cell(index.x, index.y + 1)]
      else [Cell(index.x, index.y + 1), Cell(index.x + 1, index.y + 1)]
    case Down =>
      if micro.x == 0 then [index] else [index, Cell(index.x + 1, index.y)]
  }

  /**
   * AddLives as a function of the lives, the time of the last damage taken
   * and the clock: damage within COOLDOWN_TIME of the last damage taken is
   * ignored; otherwise lives move by n, capped at MAX_LIVES, and damage
   * restarts the cooldown.
   */
  function LivesAfter(lives: int, lastHit: real, now: real, n: int): (r: (int, real))
    ensures n < 0 && now < lastHit + COOLDOWN_TIME ==> r == (lives, lastHit)
    ensures n < 0 && now >= lastHit + COOLDOWN_TIME ==> r.1 == now && (lives <= MAX_LIVES ==> r.0 == lives + n)
    ensures n >= 0 ==> r.1 == lastHit && r.0 <= MAX_LIVES && (r.0 == lives + n || r.0 == MAX_LIVES) && r.0 <= lives + n
    ensures lives <= MAX_LIVES ==> r.0 <= MAX_LIVES
    ensures n <= 0 ==> r.0 <= lives
  {
    if n < 0 && now < lastHit + COOLDOWN_TIME then (lives, lastHit)
    else
      var l := lives + n;
      (if l > MAX_LIVES then MAX_LIVES else l, if n < 0 then now else lastHit)
  }

  /** Two hits less than COOLDOWN_TIME apart cost a single life. */
  lemma DamageCooldown(lives: int, lastHit: real, t1: real, t2: real)
    requires lives <= MAX_LIVES && lastHit + COOLDOWN_TIME <= t1 <= t2 < t1 + COOLDOWN_TIME
    ensures var a := LivesAfter(lives, lastHit, t1, -1);
            LivesAfter(a.0, a.1, t2, -1) == (lives - 1, t1)
  {
  }

  /** A hit no sooner than COOLDOWN_TIME after the last accepted one always costs a life. */
  lemma DamageAfterCooldown(lives: int, lastHit: real, t1: real, t2: real)
    requires lives <= MAX_LIVES && lastHit + COOLDOWN_TIME <= t1 && t1 + COOLDOWN_TIME <= t2
    ensures var a := LivesAfter(lives, lastHit, t1, -1);
            LivesAfter(a.0, a.1, t2, -1) == (lives - 2, t2)
  {
  }

  /** The micro-step of a left move: one step back; underflow wraps to n - 1 and moves one tile left. */
  function StepLeft(index: Cell, micro: Cell, n: int): (r: (Cell, Cell))
    ensures index.x < 0 ==> r == (index, micro)
    ensures index.x >= 0 && micro.x >= 1 ==> r == (index, micro.(x := micro.x - 1))
    ensures index.x >= 0 && micro.x < 1 ==> r == (index.(x := index.x - 1), micro.(x := n - 1))
  {
    if index.x >= 0 then
      if micro.x - 1 < 0 then (index.(x := index.x - 1), micro.(x := n - 1))
      else (index, micro.(x := micro.x - 1))
    else (index, micro)
  }

  /** Every listed tile reads as passable (below 100); cells off the view read as solid. */
  predicate Clear(v: seq<seq<int>>, cs: seq<Cell>)
    requires Rect(v)
  {
    forall c :: c in cs ==> Tile(v, c.y, c.x) < 100
  }

  /**
   * IsMidAir: never on the bottom row; otherwise when the player is aligned
   * to a column and its own tile is a background code. A player in mid-air
   * can always move down.
   */
  predicate MidAir(v: seq<seq<int>>, index: Cell, micro: Cell)
    requires Rect(v)
    ensures index.y == 0 ==> !MidAir(v, index, micro)
    ensures MidAir(v, index, micro) ==> Clear(v, Examined(Down, index, micro, Width(v), |v|))
  {
    index.y != 0 && micro.x == 0 && Tile(v, index.y, index.x) <= 3
  }

  /** The position and physics status the keyboard branches of Update change. */
  datatype Motion = Motion(index: Cell, micro: Cell, status: Status)

  /** Walking or stepping off a platform into mid-air starts a fall, unless climbing. */
  function Landing(v: seq<seq<int>>, index: Cell, micro: Cell, status: Status): (r: Status)
    requires Rect(v)
    ensures r == Fall || r == status
    ensures r != status <==> MidAir(v, index, micro) && status != Climb && status != Fall
  {
    if MidAir(v, index, micro) && status != Climb then Fall else status
  }

  /** A left step CheckPosition(LEFT) rejects goes back to the old index with micro-step 0. */
  function LeftChecked(v: seq<seq<int>>, from: Cell, s: (Cell, Cell)): (r: (Cell, Cell))
    requires Rect(v)
    ensures r.1.y == s.1.y
    ensures r.0 == s.0 || r.0 == from
    ensures r.0 != from ==> Tile(v, r.0.y, r.0.x) < 100
  {
    if Clear(v, Examined(Left, s.0, s.1, Width(v), |v|)) then s else (from, s.1.(x := 0))
  }

  /**
   * The A branch of Update: one micro-step left (wrapping into the tile to
   * the left), reverted when CheckPosition(LEFT) fails; mid-air starts a
   * fall unless climbing; then Constraint(LEFT). From a tile on the grid the
   * player stays on the grid and enters only a passable tile to the left.
   */
  function LeftMove(v: seq<seq<int>>, m: Motion, n: int): (r: Motion)
    requires Rect(v)
    ensures OnView(v, m.index) ==>
              OnView(v, r.index) &&
              (r.index == m.index || (r.index == m.index.(x := m.index.x - 1) && Tile(v, r.index.y, r.index.x) < 100))
    ensures r.micro.y == m.micro.y
    ensures r.status == Fall || r.status == m.status
  {
    var s1 := StepLeft(m.index, m.micro, n);
    var s2 := LeftChecked(v, m.index, s1);
    var s3 := Clamp(Left, s2.0, s2.1, Width(v), |v|);
    Motion(s3.0, s3.1, Landing(v, s2.0, s2.1, m.status))
  }

  /**
   * The micro-step of a right move: one step on; on reaching n it wraps to 0
   * and the index advances, but only into a passable tile.
   */
  function StepRight(v: seq<seq<int>>, index: Cell, micro: Cell, n: int): (r: (Cell, Cell))
    requires Rect(v)
    ensures r.1.y == micro.y
    ensures r.0 == index || (r.0 == index.(x := index.x + 1) && Tile(v, r.0.y, r.0.x) < 100)
  {
    if index.x < Width(v) then
      if micro.x + 1 >= n then
        (if Tile(v, index.y, index.x + 1) < 100 then index.(x := index.x + 1) else index, micro.(x := 0))
      else (index, micro.(x := micro.x + 1))
    else (index, micro)
  }

  /** CheckPosition(RIGHT) zeroes the micro-step at the last column or when the move is blocked. */
  function RightChecked(v: seq<seq<int>>, s: (Cell, Cell)): (r: (Cell, Cell))
    requires Rect(v)
    ensures r.0 == s.0 && r.1.y == s.1.y
    ensures r.1.x == 0 || r.1 == s.1
  {
    if s.0.x >= Width(v) - 1 || !Clear(v, Examined(Right, s.0, s.1, Width(v), |v|)) then (s.0, s.1.(x := 0)) else s
  }

  /**
   * The D branch of Update: one micro-step right; on overflow the micro-step
   * wraps to 0 and the index advances only into a passable tile;
   * CheckPosition(RIGHT) failing zeroes the micro-step; mid-air starts a fall
   * unless climbing; then Constraint(RIGHT). From a tile on the grid the
   * player stays on the grid and enters only a passable tile to the right.
   */
  function RightMove(v: seq<seq<int>>, m: Motion, n: int): (r: Motion)
    requires Rect(v)
    ensures OnView(v, m.index) ==>
              OnView(v, r.index) &&
              (r.index == m.index || (r.index == m.index.(x := m.index.x + 1) && Tile(v, r.index.y, r.index.x) < 100))
    ensures r.micro.y == m.micro.y
    ensures r.status == Fall || r.status == m.status
  {
    var s1 := StepRight(v, m.index, m.micro, n);
    var s2 := RightChecked(v, s1);
    var s3 := Clamp(Right, s2.0, s2.1, Width(v), |v|);
    Motion(s3.0, s3.1, Landing(v, s2.0, s2.1, m.status))
  }

  /**
   * The micro-step of a climb: one step up; past n it wraps to 0, the index
   * rises but only into a passable tile, and the player is climbing.
   */
  function StepUp(v: seq<seq<int>>, m: Motion, n: int): (r: Motion)
    requires Rect(v)
    ensures r.micro.x == m.micro.x
    ensures r.status == Climb || r.status == m.status
    ensures r.index == m.index || (r.index == m.index.(y := m.index.y + 1) && Tile(v, r.index.y, r.index.x) < 100)
  {
    if m.index.y < |v| then
      if m.micro.y + 1 > n then
        Motion(if Tile(v, m.index.y + 1, m.index.x) < 100 then m.index.(y := m.index.y + 1) else m.index, m.micro.(y := 0), Climb)
      else m.(micro := m.micro.(y := m.micro.y + 1))
    else m
  }

  /** CheckPosition(UP): at the top row the micro-step is zeroed; a blocked climb holds it at n - 1. */
  function UpChecked(v: seq<seq<int>>, s: Motion, n: int): (r: Motion)
    requires Rect(v)
    ensures r.index == s.index && r.status == s.status && r.micro.x == s.micro.x
  {
    if s.index.y >= |v| - 1 then s.(micro := s.micro.(y := 0))
    else if !Clear(v, Examined(Up, s.index, s.micro, Width(v), |v|)) then s.(micro := s.micro.(y := n - 1))
    else s
  }

  /**
   * The W branch of Update, on a ladder tile only: one micro-step up; past
   * n micro-steps the micro-step wraps to 0, the index rises only into a
   * passable tile, and the player is climbing; CheckPosition(UP) failing
   * sets the micro-step to n - 1; then Constraint(UP). From a tile on the
   * grid the player stays on the grid and enters only a passable tile above.
   */
  function UpMove(v: seq<seq<int>>, m: Motion, n: int): (r: Motion)
    requires Rect(v)
    ensures OnView(v, m.index) ==>
              OnView(v, r.index) &&
              (r.index == m.index || (r.index == m.index.(y := m.index.y + 1) && Tile(v, r.index.y, r.index.x) < 100))
    ensures !IsLadder(Tile(v, m.index.y, m.index.x)) ==> r == m
    ensures r.micro.x == m.micro.x
    ensures r.status == Climb || r.status == m.status
  {
    if !IsLadder(Tile(v, m.index.y, m.index.x)) then m
    else
      var s2 := UpChecked(v, StepUp(v, m, n), n);
      var s3 := Clamp(Up, s2.index, s2.micro, Width(v), |v|);
      Motion(s3.0, s3.1, s2.status)
  }

  /**
   * The micro-step of a descent: one step down; on underflow the index
   * descends into a passable tile with the micro-step at n - 1, or, when the
   * tile below is solid, the micro-step stays 0 and the player falls.
   */
  function StepDown(v: seq<seq<int>>, m: Motion, n: int): (r: Motion)
    requires Rect(v)
    ensures r.micro.x == m.micro.x
    ensures r.status == Fall || r.status == m.status
    ensures r.index == m.index || (r.index == m.index.(y := m.index.y - 1) && Tile(v, r.index.y, r.index.x) < 100)
  {
    if m.index.y >= 0 then
      if m.micro.y - 1 < 0 then
        if Tile(v, m.index.y - 1, m.index.x) < 100 then m.(index := m.index.(y := m.index.y - 1), micro := m.micro.(y := n - 1))
        else Motion(m.index, m.micro.(y := 0), Fall)
      else m.(micro := m.micro.(y := m.micro.y - 1))
    else m
  }

  /** Part-way down a ladder top beside a solid tile, the micro-step is pushed to n so the player cannot pass into it. */
  function LadderGuard(v: seq<seq<int>>, s: Motion, n: int): (r: Motion)
    requires Rect(v)
    ensures r.index == s.index && r.status == s.status && r.micro.x == s.micro.x
  {
    if s.micro.y != 0 && s.micro.x != 0 && Tile(v, s.index.y, s.index.x) == LADDER_TOP && Tile(v, s.index.y, s.index.x + 1) >= 100
    then s.(micro := s.micro.(y := n)) else s
  }

  /**
   * The S branch of Update. While falling it only turns a fall into a climb
   * when aligned above a ladder top. Otherwise, on a ladder tile or above a
   * ladder top: one micro-step down; on underflow the index descends only
   * into a passable tile (the micro-step wraps to n - 1), and otherwise the
   * micro-step stays 0 and the player falls; a micro-step beside a solid
   * tile at a ladder top is pushed to n; then Constraint(DOWN). From a tile
   * on the grid the player stays on the grid and enters only a passable
   * tile below.
   */
  function DownMove(v: seq<seq<int>>, m: Motion, n: int): (r: Motion)
    requires Rect(v)
    ensures OnView(v, m.index) ==>
              OnView(v, r.index) &&
              (r.index == m.index || (r.index == m.index.(y := m.index.y - 1) && Tile(v, r.index.y, r.index.x) < 100))
    ensures m.status == Fall ==>
              r.index == m.index && r.micro == m.micro &&
              (r.status == Climb <==> m.micro.y == 0 && Tile(v, m.index.y - 1, m.index.x) == LADDER_TOP)
    ensures r.micro.x == m.micro.x
  {
    var x, y := m.index.x, m.index.y;
    if m.status == Fall then
      if m.micro.y == 0 && Tile(v, y - 1, x) == LADDER_TOP then m.(status := Climb) else m
    else if !(IsLadder(Tile(v, y, x)) || Tile(v, y - 1, x) == LADDER_TOP) then m
    else
      var s2 := LadderGuard(v, StepDown(v, m, n), n);
      var s3 := Clamp(Down, s2.index, s2.micro, Width(v), |v|);
      Motion(s3.0, s3.1, s2.status)
  }

  /**
   * The keyboard branches of Update: A, else D; then W, else S. From a tile
   * on the grid the player ends on the grid, at most one tile away on each
   * axis, and on its old tile or a passable one.
   */
  function KeyMove(v: seq<seq<int>>, keys: Intent, m: Motion, nx: int, ny: int): (r: Motion)
    requires Rect(v)
    ensures OnView(v, m.index) ==>
              OnView(v, r.index) &&
              Abs(r.index.x - m.index.x) <= 1 && Abs(r.index.y - m.index.y) <= 1 &&
              (r.index == m.index || Tile(v, r.index.y, r.index.x) < 100)
  {
    var h := if keys.left then LeftMove(v, m, nx) else if keys.right then RightMove(v, m, nx) else m;
    if keys.up then UpMove(v, h, ny) else if keys.down then DownMove(v, h, ny) else h
  }

  /**
   * The map side of CPlayer2D::Init: the first player start tile of the
   * level, in storage order, is overwritten with background tile 3, and the
   * level is accepted only when no start tile is left after that. A level
   * without one is left as it is.
   */
  method ClaimStartTile(tiles: TileMap) returns (ok: bool, at: Cell)
    requires tiles.Valid()
    modifies tiles.cells
    ensures ok <==> |old(Occurrences(tiles.View(), PLAYER_TILE))| == 1
    ensures old(Occurrences(tiles.View(), PLAYER_TILE)) == {} ==> !ok && unchanged(tiles.cells)
    ensures old(Occurrences(tiles.View(), PLAYER_TILE)) != {} ==>
              at in old(Occurrences(tiles.View(), PLAYER_TILE)) && tiles.CellInGrid(at)
    ensures old(Occurrences(tiles.View(), PLAYER_TILE)) != {} ==>
              var v0 := old(tiles.View()); tiles.View() == v0[at.y := v0[at.y][at.x := 3]]
    ensures old(Occurrences(tiles.View(), PLAYER_TILE)) != {} ==>
              Occurrences(tiles.View(), PLAYER_TILE) == old(Occurrences(tiles.View(), PLAYER_TILE)) - {at}
    ensures ok ==> Occurrences(tiles.View(), PLAYER_TILE) == {}
  {
    ghost var v0 := tiles.View();
    tiles.OccurrencesStored(PLAYER_TILE);
    var found, row, col := tiles.FindValue(PLAYER_TILE, DEFAULT_INVERT);
    at := Cell(col, row);
    if !found {
      return false, at;
    }
    Erase(tiles, row, col);
    ghost var starts := Occurrences(v0, PLAYER_TILE);
    ghost var left := Occurrences(tiles.View(), PLAYER_TILE);
    assert left == starts - {at};
    assert |left| == |starts| - 1;
    tiles.OccurrencesStored(PLAYER_TILE);
    label erased:
    var again, _, _ := tiles.FindValue(PLAYER_TILE, DEFAULT_INVERT);
    tiles.ViewKept@erased();
    assert again <==> left != {};
    ok := !again;
  }

  /** The found start tile becomes background tile 3 and leaves the start tiles (Player2D.cpp:110). */
  method Erase(tiles: TileMap, row: int, col: int)
    requires tiles.Valid() && tiles.InGrid(row, col) && tiles.View()[row][col] == PLAYER_TILE
    modifies tiles.cells
    ensures var v0 := old(tiles.View()); tiles.View() == v0[row := v0[row][col := 3]]
    ensures Occurrences(tiles.View(), PLAYER_TILE) == old(Occurrences(tiles.View(), PLAYER_TILE)) - {Cell(col, row)}
    ensures Cell(col, row) in old(Occurrences(tiles.View(), PLAYER_TILE))
  {
    ghost var v0 := tiles.View();
    tiles.SetMapInfo(row, col, 3, DEFAULT_INVERT);
    Replaced(v0, tiles.View(), row, col, 3);
    Removed(v0, row, col, PLAYER_TILE, 3);
  }

  /**
   * CPlayer2D: the player's tile index and micro-steps, lives and their
   * damage cooldown, power-ups, inventory and physics status.
   */
  class Player {
    /** Micro-steps per tile before any speed boost (from the game settings). */
    const stepsX: int
    const stepsY: int
    var index: Cell
    var micro: Cell
    var oldIndex: Cell
    var lives: int
    var equippedKey: bool
    var microSpeedBoost: int
    var isInvisible: bool
    /** The scene clock as last passed to Update. */
    var time: real
    /** When damage was last taken (the function-static currTime of AddLives). */
    var lastHit: real
    var status: Status
    /** Whether the boundary colour (red) is showing. */
    var onBoundary: bool
    var inventory: map<ItemName, Item>

    /** The index is on the grid, every item is in the inventory and lives are capped. */
    ghost predicate Valid(tiles: TileMap)
      reads this
    {
      tiles.CellInGrid(index) && lives <= MAX_LIVES && Stocked(inventory)
    }

    /**
     * CPlayer2D::Init once ClaimStartTile has accepted the level and returned
     * the start tile: five lives, no boost, key or invisibility, falling,
     * aligned to the start tile, with the inventory of five items.
     */
    constructor (tiles: TileMap, start: Cell, stepsX: int, stepsY: int)
      requires tiles.CellInGrid(start)
      ensures Valid(tiles) && index == start && micro == Cell(0, 0)
      ensures lives == MAX_LIVES && status == Fall && !equippedKey && !isInvisible && microSpeedBoost == 0
      ensures inventory == map[PlayerLive := Item(0, 5), Key := Item(0, 1), Speed := Item(0, 3),
                               Invisibility := Item(0, 1), SpikeItem := Item(0, 3)]
    {
      this.stepsX := stepsX;
      this.stepsY := stepsY;
      index := start;
      micro := Cell(0, 0);
      oldIndex := start;
      lives := MAX_LIVES;
      equippedKey := false;
      microSpeedBoost := 0;
      isInvisible := false;
      time := 0.0;
      lastHit := 0.0;
      status := Fall;
      onBoundary := false;
      inventory := map[PlayerLive := Item(0, 5), Key := Item(0, 1), Speed := Item(0, 3),
                       Invisibility := Item(0, 1), SpikeItem := Item(0, 3)];
    }

    /**
     * Constraint: clamps the index for the direction moved and shows the
     * boundary colour iff the index ends on the left, right or top edge.
     */
    method Constraint(tiles: TileMap, dir: Direction)
      modifies this`index, this`micro, this`onBoundary
      ensures (index, micro) == Clamp(dir, old(index), old(micro), tiles.Cols(), tiles.Rows())
      ensures onBoundary <==> OnBoundary(index, tiles.Cols(), tiles.Rows())
    {
      onBoundary := false;
      if dir == Left {
        if index.x < 0 {
          index := index.(x := 0);
          micro := micro.(x := 0);
        }
      } else if dir == Right {
        if index.x >= tiles.Cols() - 1 {
          index := index.(x := tiles.Cols() - 1);
          micro := micro.(x := 0);
        }
      } else if dir == Up {
        if index.y >= tiles.Rows() - 1 {
          index := index.(y := tiles.Rows() - 1);
          micro := micro.(y := 0);
        }
      } else {
        if index.y < 0 {
          index := index.(y := 0);
          micro := micro.(y := 0);
        }
      }
      if index.x <= 0 || index.x >= tiles.Cols() - 1 || index.y >= tiles.Rows() - 1 || index.y < 0 {
        onBoundary := true;
      }
    }

    /**
     * CheckPosition: false iff some examined tile is solid (code 100 or
     * more). Right and up tests at the last column or row pass and zero
     * that axis's micro-step.
     */
    method CheckPosition(tiles: TileMap, ghost v: seq<seq<int>>, dir: Direction) returns (ok: bool)
      requires tiles.Loaded() && tiles.Shows(v)
      modifies this`micro
      ensures ok == Clear(v, Examined(dir, index, old(micro), tiles.Cols(), tiles.Rows()))
      ensures micro == if dir == Right && index.x >= tiles.Cols() - 1 then old(micro).(x := 0)
                       else if dir == Up && index.y >= tiles.Rows() - 1 then old(micro).(y := 0)
                       else old(micro)
    {
      forall r, c ensures tiles.Probe(r, c) == Tile(v, r, c) {
        tiles.ProbeShown(v, r, c);
      }
      var x, y := index.x, index.y;
      if dir == Left {
        if micro.y == 0 {
          return tiles.Probe(y, x) < 100;
        } else {
          return tiles.Probe(y, x) < 100 && tiles.Probe(y + 1, x) < 100;
        }
      } else if dir == Right {
        if x >= tiles.Cols() - 1 {
          micro := micro.(x := 0);
          return true;
        }
        if micro.y == 0 {
          return tiles.Probe(y, x + 1) < 100;
        } else {
          return tiles.Probe(y, x + 1) < 100 && tiles.Probe(y + 1, x + 1) < 100;
        }
      } else if dir == Up {
        if y >= tiles.Rows() - 1 {
          micro := micro.(y := 0);
          return true;
        }
        if micro.x == 0 {
          return tiles.Probe(y + 1, x) < 100;
        } else {
          return tiles.Probe(y + 1, x) < 100 && tiles.Probe(y + 1, x + 1) < 100;
        }
      } else {
        if micro.x == 0 {
          return tiles.Probe(y, x) < 100;
        } else {
          return tiles.Probe(y, x) < 100 && tiles.Probe(y, x + 1) < 100;
        }
      }
    }

    /** IsMidAir at the player's own position: MidAir on the current level. */
    function IsMidAir(tiles: TileMap): (r: bool)
      requires tiles.Loaded()
      reads this`index, this`micro, tiles`curLevel, tiles.cells
      ensures r == MidAir(tiles.View(), index, micro)
      ensures r ==> index.y != 0 && Clear(tiles.View(), Examined(Down, index, micro, Width(tiles.View()), |tiles.View()|))
    {
      index.y != 0 && micro.x == 0 && tiles.Probe(index.y, index.x) <= 3
    }

    /** AddLives: see LivesAfter; the clock is the one last passed to Update. */
    method AddLives(n: int)
      modifies this`lives, this`lastHit
      ensures (lives, lastHit) == LivesAfter(old(lives), old(lastHit), time, n)
    {
      if n < 0 {
        if time < lastHit + COOLDOWN_TIME {
          return;
        } else {
          lastHit := time;
        }
      }
      lives := lives + n;
      if lives > MAX_LIVES {
        lives := MAX_LIVES;
      }
    }

    /** PlaceSpike: on a background tile, puts a spike there; otherwise changes nothing. */
    method PlaceSpike(tiles: TileMap) returns (placed: bool)
      requires tiles.Valid() && Valid(tiles)
      modifies tiles.cells
      ensures placed <==> old(tiles.GetMapInfo(index.y, index.x, DEFAULT_INVERT)) <= 3
      ensures placed ==> tiles.GetMapInfo(index.y, index.x, DEFAULT_INVERT) == SPIKE &&
                         tiles.TilesUnchangedExcept(tiles.curLevel, tiles.StorageRow(index.y, DEFAULT_INVERT), index.x)
      ensures !placed ==> unchanged(tiles.cells)
    {
      if tiles.GetMapInfo(index.y, index.x, DEFAULT_INVERT) > 3 {
        return false;
      }
      tiles.SetMapInfo(index.y, index.x, SPIKE, DEFAULT_INVERT);
      return true;
    }

    /**
     * InteractWithMap: a live tile stamps the pickup ledger with the map's
     * clock; a pickup tile is consumed (the tile takes its row's background
     * and the item count goes up by one) only while the item is below its
     * maximum; the exit door wins the game only with the key equipped. Only
     * the player's own tile can change.
     */
    method InteractWithMap(tiles: TileMap, ghost v: seq<seq<int>>, gm: GameManager)
      requires tiles.Loaded() && tiles.LedgerOK() && tiles.Shows(v) && Valid(tiles)
      modifies tiles.cells, tiles`liveMap, this`inventory, gm`playerWon
      ensures tiles.LedgerOK() && Valid(tiles)
      ensures tiles.liveMap == if Tile(v, index.y, index.x) == LIVE then old(tiles.liveMap)[(index.x, index.y) := tiles.time] else old(tiles.liveMap)
      ensures gm.playerWon == (old(gm.playerWon) || (Tile(v, index.y, index.x) == EXIT_DOOR && equippedKey))
      ensures inventory == Collected(Tile(v, index.y, index.x), old(inventory))
      ensures tiles.TilesUnchangedExcept(tiles.curLevel, tiles.StorageRow(index.y, DEFAULT_INVERT), index.x)
      ensures inventory == old(inventory) ==> unchanged(tiles.cells)
      ensures inventory != old(inventory) && old(tiles.FirstBackground(index.y, 0)) < tiles.Cols() ==>
                tiles.GetMapInfo(index.y, index.x, DEFAULT_INVERT) == old(tiles.GetMapInfo(index.y, tiles.FirstBackground(index.y, 0), DEFAULT_INVERT))
    {
      tiles.ProbeShown(v, index.y, index.x);
      var tile := tiles.GetMapInfo(index.y, index.x, DEFAULT_INVERT);
      if tile == LIVE {
        tiles.StampLive(index.x, index.y);
      } else if tile == EXIT_DOOR && equippedKey {
        gm.playerWon := true;
      }
      Pick(tiles, tile);
    }

    /**
     * The pickup half of InteractWithMap: an item below its maximum is
     * counted up and its tile is consumed; anything else changes nothing.
     */
    method Pick(tiles: TileMap, tile: int)
      requires tiles.LevelOK() && tiles.InGrid(index.y, index.x) && Stocked(inventory)
      modifies tiles.cells, this`inventory
      ensures inventory == Collected(tile, old(inventory))
      ensures tiles.TilesUnchangedExcept(tiles.curLevel, tiles.StorageRow(index.y, DEFAULT_INVERT), index.x)
      ensures inventory == old(inventory) ==> unchanged(tiles.cells)
      ensures inventory != old(inventory) && old(tiles.FirstBackground(index.y, 0)) < tiles.Cols() ==>
                tiles.GetMapInfo(index.y, index.x, DEFAULT_INVERT) == old(tiles.GetMapInfo(index.y, tiles.FirstBackground(index.y, 0), DEFAULT_INVERT))
    {
      var item := PickupOf(tile);
      if item.Some? {
        var it := inventory[item.value];
        if it.count < it.max {
          tiles.SetTileValue(index.y, index.x);
          inventory := inventory[item.value := it.(count := it.count + 1)];
        }
      }
    }

    /** The part of the player Update changes. */
    function Motion_(): Motion
      reads this`index, this`micro, this`status
    {
      Motion(index, micro, status)
    }

    /** The A branch of Update (see LeftMove); Constraint(LEFT) sets the boundary colour. */
    method MoveLeft(tiles: TileMap, ghost v: seq<seq<int>>, n: int)
      requires tiles.Loaded() && tiles.Shows(v) && oldIndex == index
      modifies this`index, this`micro, this`status, this`onBoundary
      ensures Motion_() == LeftMove(v, old(Motion_()), n)
      ensures onBoundary <==> OnBoundary(index, tiles.Cols(), tiles.Rows())
    {
      forall r, c ensures tiles.Probe(r, c) == Tile(v, r, c) {
        tiles.ProbeShown(v, r, c);
      }
      ghost var m0 := Motion_();
      if index.x >= 0 {
        micro := micro.(x := micro.x - 1);
        if micro.x < 0 {
          micro := micro.(x := n - 1);
          index := index.(x := index.x - 1);
        }
      }
      ghost var s1 := (index, micro);
      assert s1 == StepLeft(m0.index, m0.micro, n);
      var ok := CheckPosition(tiles, v, Left);
      if !ok {
        index := oldIndex;
        micro := micro.(x := 0);
      }
      ghost var s2 := (index, micro);
      assert s2 == LeftChecked(v, m0.index, s1);
      if IsMidAir(tiles) && status != Climb {
        status := Fall;
      }
      assert status == Landing(v, s2.0, s2.1, m0.status);
      ghost var s3 := Clamp(Left, s2.0, s2.1, tiles.Cols(), tiles.Rows());
      assert LeftMove(v, m0, n) == Motion(s3.0, s3.1, status);
      Constraint(tiles, Left);
    }

    /** The micro-step of the D branch, before the position check (see StepRight). */
    method NudgeRight(tiles: TileMap, ghost v: seq<seq<int>>, n: int)
      requires tiles.Loaded() && tiles.Shows(v)
      modifies this`index, this`micro
      ensures (index, micro) == StepRight(v, old(index), old(micro), n)
    {
      forall r, c ensures tiles.Probe(r, c) == Tile(v, r, c) {
        tiles.ProbeShown(v, r, c);
      }
      if index.x < tiles.Cols() {
        micro := micro.(x := micro.x + 1);
        if micro.x >= n {
          micro := micro.(x := 0);
          if tiles.Probe(index.y, index.x + 1) < 100 {
            index := index.(x := index.x + 1);
          }
        }
      }
    }

    /** The D branch of Update (see RightMove); Constraint(RIGHT) sets the boundary colour. */
    method MoveRight(tiles: TileMap, ghost v: seq<seq<int>>, n: int)
      requires tiles.Loaded() && tiles.Shows(v)
      modifies this`index, this`micro, this`status, this`onBoundary
      ensures Motion_() == RightMove(v, old(Motion_()), n)
      ensures onBoundary <==> OnBoundary(index, tiles.Cols(), tiles.Rows())
    {
      forall r, c ensures tiles.Probe(r, c) == Tile(v, r, c) {
        tiles.ProbeShown(v, r, c);
      }
      ghost var m0 := Motion_();
      NudgeRight(tiles, v, n);
      ghost var s1 := (index, micro);
      var ok := CheckPosition(tiles, v, Right);
      if !ok {
        micro := micro.(x := 0);
      }
      ghost var s2 := (index, micro);
      assert s2 == RightChecked(v, s1);
      if IsMidAir(tiles) && status != Climb {
        status := Fall;
      }
      assert status == Landing(v, s2.0, s2.1, m0.status);
      ghost var s3 := Clamp(Right, s2.0, s2.1, tiles.Cols(), tiles.Rows());
      assert RightMove(v, m0, n) == Motion(s3.0, s3.1, status);
      Constraint(tiles, Right);
    }

    /** The W branch of Update (see UpMove); Constraint(UP) runs only on a ladder. */
    method MoveUp(tiles: TileMap, ghost v: seq<seq<int>>, n: int)
      requires tiles.Loaded() && tiles.Shows(v)
      modifies this`index, this`micro, this`status, this`onBoundary
      ensures Motion_() == UpMove(v, old(Motion_()), n)
      ensures onBoundary == if IsLadder(tiles.Probe(old(index).y, old(index).x)) then OnBoundary(index, tiles.Cols(), tiles.Rows()) else old(onBoundary)
    {
      forall r, c ensures tiles.Probe(r, c) == Tile(v, r, c) {
        tiles.ProbeShown(v, r, c);
      }
      ghost var m0 := Motion_();
      if IsLadder(tiles.Probe(index.y, index.x)) {
        if index.y < tiles.Rows() {
          micro := micro.(y := micro.y + 1);
          if micro.y > n {
            micro := micro.(y := 0);
            if tiles.Probe(index.y + 1, index.x) < 100 {
              index := index.(y := index.y + 1);
            }
            status := Climb;
          }
        }
        ghost var s1 := Motion_();
        assert s1 == StepUp(v, m0, n);
        var ok := CheckPosition(tiles, v, Up);
        if !ok {
          micro := micro.(y := n - 1);
        }
        ghost var s2 := Motion_();
        assert s2 == UpChecked(v, s1, n);
        ghost var s3 := Clamp(Up, s2.index, s2.micro, tiles.Cols(), tiles.Rows());
        assert UpMove(v, m0, n) == Motion(s3.0, s3.1, status);
        Constraint(tiles, Up);
      }
    }

    /** The S branch of Update (see DownMove); Constraint(DOWN) runs only when it moves. */
    method MoveDown(tiles: TileMap, ghost v: seq<seq<int>>, n: int)
      requires tiles.Loaded() && tiles.Shows(v)
      modifies this`index, this`micro, this`status, this`onBoundary
      ensures Motion_() == DownMove(v, old(Motion_()), n)
      ensures onBoundary == if old(status) != Fall && (IsLadder(tiles.Probe(old(index).y, old(index).x)) || tiles.Probe(old(index).y - 1, old(index).x) == LADDER_TOP)
                            then OnBoundary(index, tiles.Cols(), tiles.Rows()) else old(onBoundary)
    {
      forall r, c ensures tiles.Probe(r, c) == Tile(v, r, c) {
        tiles.ProbeShown(v, r, c);
      }
      ghost var m0 := Motion_();
      if status != Fall {
        if IsLadder(tiles.Probe(index.y, index.x)) || tiles.Probe(index.y - 1, index.x) == LADDER_TOP {
          if index.y >= 0 {
            micro := micro.(y := micro.y - 1);
            if micro.y < 0 {
              if tiles.Probe(index.y - 1, index.x) < 100 {
                micro := micro.(y := n - 1);
                index := index.(y := index.y - 1);
              } else {
                micro := micro.(y := 0);
                status := Fall;
              }
            }
          }
          ghost var s1 := Motion_();
          assert s1 == StepDown(v, m0, n);
          if micro.y != 0 && micro.x != 0 {
            if tiles.Probe(index.y, index.x) == LADDER_TOP && tiles.Probe(index.y, index.x + 1) >= 100 {
              micro := micro.(y := n);
            }
          }
          ghost var s2 := Motion_();
          assert s2 == LadderGuard(v, s1, n);
          ghost var s3 := Clamp(Down, s2.index, s2.micro, tiles.Cols(), tiles.Rows());
          assert DownMove(v, m0, n) == Motion(s3.0, s3.1, status);
          Constraint(tiles, Down);
        }
      } else {
        if micro.y == 0 && tiles.Probe(index.y - 1, index.x) == LADDER_TOP {
          status := Climb;
        }
      }
    }

    /** The keyboard branches of Update: A, else D; then W, else S (see KeyMove). */
    method Move(tiles: TileMap, ghost v: seq<seq<int>>, keys: Intent, nx: int, ny: int)
      requires tiles.Loaded() && tiles.Shows(v) && oldIndex == index
      modifies this`index, this`micro, this`status, this`onBoundary
      ensures Motion_() == KeyMove(v, keys, old(Motion_()), nx, ny)
    {
      if keys.left {
        MoveLeft(tiles, v, nx);
      } else if keys.right {
        MoveRight(tiles, v, nx);
      }
      if keys.up {
        MoveUp(tiles, v, ny);
      } else if keys.down {
        MoveDown(tiles, v, ny);
      }
    }

    /** Micro-steps per tile, less the speed boost. */
    function StepsX(): int reads this`microSpeedBoost { stepsX - microSpeedBoost }
    function StepsY(): int reads this`microSpeedBoost { stepsY - microSpeedBoost }

    /**
     * Update: stores the clock and the old index, takes the keyboard
     * branches with the micro-step counts less the speed boost, then
     * interacts with the tile reached. The player stays on the grid and
     * only its new tile can change.
     */
    method Update(tiles: TileMap, ghost v: seq<seq<int>>, gm: GameManager, keys: Intent, now: real)
      requires tiles.Loaded() && tiles.LedgerOK() && tiles.Shows(v) && Valid(tiles)
      modifies this`time, this`oldIndex, this`index, this`micro, this`status, this`onBoundary, this`inventory
      modifies tiles.cells, tiles`liveMap, gm`playerWon
      ensures tiles.LedgerOK() && Valid(tiles)
      ensures time == now && oldIndex == old(index)
      ensures Motion_() == KeyMove(v, keys, old(Motion_()), old(StepsX()), old(StepsY()))
      ensures inventory == Collected(Tile(v, index.y, index.x), old(inventory))
      ensures gm.playerWon == (old(gm.playerWon) || (Tile(v, index.y, index.x) == EXIT_DOOR && equippedKey))
      ensures tiles.liveMap == if Tile(v, index.y, index.x) == LIVE then old(tiles.liveMap)[(index.x, index.y) := tiles.time] else old(tiles.liveMap)
      ensures tiles.TilesUnchangedExcept(tiles.curLevel, tiles.StorageRow(index.y, DEFAULT_INVERT), index.x)
    {
      ghost var m0 := Motion_();
      var nx := StepsX();
      var ny := StepsY();
      time := now;
      oldIndex := index;
      tiles.ProbeShown(v, index.y, index.x);
      Move(tiles, v, keys, nx, ny);
      ghost var m1 := Motion_();
      assert m1 == KeyMove(v, keys, m0, nx, ny);
      tiles.ProbeShown(v, index.y, index.x);
      InteractWithMap(tiles, v, gm);
      assert Motion_() == m1;
    }
  }
}
