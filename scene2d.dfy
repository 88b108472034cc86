/**
 * The scene: the owner of the map, the player and the enemy list. Its
 * Update runs one game tick (the clock, then the map's respawns, the
 * player and every enemy in list order, each knocked-out enemy without a
 * helper getting one), then the lose and level checks; its enemy
 * registration creates enemies until no start tile is left.
 */
module Scene2D {
  import opened Map2D
  import opened Player2D
  import opened Enemy2D

  /** The knocked-out flags of a list of enemies, in order. */
  function KnockedOut(es: seq<Enemy>): (ks: seq<bool>)
    reads es
    ensures |ks| == |es| && forall i :: 0 <= i < |es| ==> ks[i] == es[i].isKnockedOut
  {
    seq(|es|, i requires 0 <= i < |es| reads es => es[i].isKnockedOut)
  }

  /** The first position whose flag is down, |ks| when every flag is up. */
  function FirstStanding(ks: seq<bool>): (k: nat)
    ensures k <= |ks|
    ensures k < |ks| ==> !ks[k]
    ensures forall j :: 0 <= j < k ==> ks[j]
  {
    if ks == [] then 0
    else if !ks[0] then 0
    else 1 + FirstStanding(ks[1..])
  }

  /** The enemy list: no enemy twice, each numbered by its place, each on the grid with its waypoints. */
  ghost predicate Roster(es: seq<Enemy>, tiles: TileMap)
    reads es`index, es`path, es`enemyNum
  {
    (forall i, j :: 0 <= i < j < |es| ==> es[i] != es[j]) &&
    forall i :: 0 <= i < |es| ==> es[i].enemyNum == i && es[i].Valid(tiles)
  }

  /**
   * One pass of the registration loop: a new enemy, initialised on the
   * map. It succeeds exactly when a start tile is left, and then that
   * tile, and only that one, is consumed.
   */
  method NewEnemy(tiles: TileMap, player: Player, num: int, stepsX: int, stepsY: int) returns (e: Enemy, ok: bool)
    requires tiles.Valid() && Placeable(tiles.View(), ENEMY_TILE)
    modifies tiles.cells
    ensures fresh(e) && tiles.Valid() && Placeable(tiles.View(), ENEMY_TILE)
    ensures ok <==> old(Occurrences(tiles.View(), ENEMY_TILE)) != {}
    ensures !ok ==> Occurrences(tiles.View(), ENEMY_TILE) == {}
    ensures ok ==> |Occurrences(tiles.View(), ENEMY_TILE)| == |old(Occurrences(tiles.View(), ENEMY_TILE))| - 1
    ensures ok ==> e.Valid(tiles) && Starting(e) && e.enemyNum == num
  {
    ghost var v0 := tiles.View();
    e := new Enemy(stepsX, stepsY);
    e.SetEnemyNum(num);
    ok := e.Init(tiles, player, v0);
  }

  /** An enemy as Init leaves it: attacking, with full lives, standing and not waiting for help. */
  ghost predicate Starting(e: Enemy)
    reads e`fsm, e`lives, e`isKnockedOut, e`gotSupport
  {
    e.fsm == Attack && e.lives == ENEMY_MAX_LIVES && !e.isKnockedOut && !e.gotSupport
  }

  /** Appending a new enemy numbered by its place keeps the list well formed. */
  lemma RosterAppend(es: seq<Enemy>, e: Enemy, tiles: TileMap)
    requires Roster(es, tiles) && e !in es && e.enemyNum == |es| && e.Valid(tiles)
    ensures Roster(es + [e], tiles)
  {
  }

  /**
   * One pass of the registration loop: a new enemy that finds a start tile
   * is numbered by its place and appended to the list.
   */
  method Enlist(tiles: TileMap, player: Player, es: seq<Enemy>, stepsX: int, stepsY: int) returns (es': seq<Enemy>, ok: bool)
    requires tiles.Valid() && Placeable(tiles.View(), ENEMY_TILE) && Roster(es, tiles)
    modifies tiles.cells
    ensures tiles.Valid() && Placeable(tiles.View(), ENEMY_TILE) && Roster(es', tiles)
    ensures ok <==> old(Occurrences(tiles.View(), ENEMY_TILE)) != {}
    ensures ok ==> |es'| == |es| + 1 && |Occurrences(tiles.View(), ENEMY_TILE)| == |old(Occurrences(tiles.View(), ENEMY_TILE))| - 1
    ensures !ok ==> es' == es && Occurrences(tiles.View(), ENEMY_TILE) == {}
  {
    var e;
    e, ok := NewEnemy(tiles, player, |es|, stepsX, stepsY);
    es' := es;
    if ok {
      RosterAppend(es, e, tiles);
      es' := es + [e];
    }
  }

  /**
   * The registration loop of CScene2D::Init: new enemies are initialised
   * one after another, each numbered by its place in the list, until one
   * finds no start tile.
   */
  method RegisterEnemies(tiles: TileMap, player: Player, stepsX: int, stepsY: int) returns (es: seq<Enemy>)
    requires tiles.Valid() && Placeable(tiles.View(), ENEMY_TILE)
    modifies tiles.cells
    ensures tiles.Valid() && Roster(es, tiles) && Occurrences(tiles.View(), ENEMY_TILE) == {}
    ensures |es| == |old(Occurrences(tiles.View(), ENEMY_TILE))|
  {
    ghost var total := |Occurrences(tiles.View(), ENEMY_TILE)|;
    es := [];
    var ok := true;
    while ok
      invariant tiles.Valid() && Placeable(tiles.View(), ENEMY_TILE) && Roster(es, tiles)
      invariant |es| + |Occurrences(tiles.View(), ENEMY_TILE)| == total
      invariant !ok ==> Occurrences(tiles.View(), ENEMY_TILE) == {}
      decreases |Occurrences(tiles.View(), ENEMY_TILE)| + (if ok then 1 else 0)
    {
      es, ok := Enlist(tiles, player, es, stepsX, stepsY);
    }
  }

  /**
   * The rescue assignment for knocked-out enemy k: the first enemy in list
   * order that is not knocked out is sent to k's tile in SUPPORT and k is
   * marked as supported; when every enemy is knocked out nothing changes.
   */
  method AssignSupport(es: seq<Enemy>, k: nat) returns (helper: nat)
    requires k < |es| && es[k].isKnockedOut
    requires forall i, j :: 0 <= i < j < |es| ==> es[i] != es[j]
    modifies es`gotSupport, es`fsm, es`isKnockedOut, es`supportPos
    ensures helper == FirstStanding(old(KnockedOut(es))) && helper != k
    ensures KnockedOut(es) == old(KnockedOut(es))
    ensures helper < |es| ==>
              es[k].gotSupport && es[helper].fsm == Support && es[helper].supportPos == es[k].index
    ensures helper == |es| ==> es[k].gotSupport == old(es[k].gotSupport)
    ensures es[k].fsm == old(es[k].fsm) && es[k].supportPos == old(es[k].supportPos) && es[k].index == old(es[k].index)
    ensures helper < |es| ==> es[helper].gotSupport == old(es[helper].gotSupport)
    ensures forall j :: 0 <= j < |es| && j != k && j != helper ==> unchanged(es[j])
  {
    helper := 0;
    while helper < |es| && es[helper].isKnockedOut
      invariant helper <= |es|
      invariant forall j :: 0 <= j < helper ==> es[j].isKnockedOut
    {
      helper := helper + 1;
    }
    if helper < |es| {
      es[k].gotSupport := true;
      es[helper].SetFSM(SupportRequest, es[k].index);
    }
  }

  /**
   * One pass of the enemy loop of CScene2D::Update: enemy i ticks on the
   * map as the previous enemies left it; if it is then knocked out and
   * nobody helps it yet, it gets a helper, unless every enemy is knocked out.
   */
  method TickEnemy(tiles: TileMap, player: Player, statics: EnemyStatics, es: seq<Enemy>, i: nat)
    requires i < |es| && tiles.Valid() && Roster(es, tiles)
    modifies tiles.cells, tiles`liveMap
    modifies tiles`startPos, tiles`targetPos, tiles`weight, tiles`heuristic
    modifies tiles`openList, tiles`cameFrom, tiles`closed, tiles`closeRank, tiles`closeCount
    modifies player`lives, player`lastHit, statics`stage, statics`nearestLiveFound
    modifies es`index, es`micro, es`path, es`lives, es`liveItem, es`fsm
    modifies es`playerOldIndex, es`nearestLive, es`supportPos, es`isKnockedOut, es`gotSupport
    ensures tiles.Valid() && Roster(es, tiles) && player.lives <= old(player.lives)
    ensures old(forall j :: 0 <= j < i ==> es[j].playerOldIndex == player.index) ==>
              forall j :: 0 <= j <= i ==> es[j].playerOldIndex == player.index
    ensures es[i].isKnockedOut ==> es[i].gotSupport || forall j :: 0 <= j < |es| ==> es[j].isKnockedOut
  {
    StepEnemy(tiles, player, statics, es, i);
    Summon(es, i);
  }

  /**
   * The check after enemy i's tick: a knocked-out enemy that nobody helps
   * yet gets a helper, unless every enemy is knocked out. No enemy's state
   * or knocked-out flag changes except the helper's state.
   */
  method Summon(es: seq<Enemy>, i: nat)
    requires i < |es| && forall a, b :: 0 <= a < b < |es| ==> es[a] != es[b]
    modifies es`gotSupport, es`fsm, es`isKnockedOut, es`supportPos
    ensures es[i].fsm == old(es[i].fsm) && KnockedOut(es) == old(KnockedOut(es))
    ensures es[i].isKnockedOut ==> es[i].gotSupport || forall j :: 0 <= j < |es| ==> es[j].isKnockedOut
  {
    if es[i].isKnockedOut && !es[i].gotSupport {
      var _ := AssignSupport(es, i);
    }
  }

  /**
   * The tick of enemy i alone: its state follows NextState and it records
   * the player's tile; no other enemy's record of it changes; the list stays
   * well formed and the player can only lose lives.
   */
  method StepEnemy(tiles: TileMap, player: Player, statics: EnemyStatics, es: seq<Enemy>, i: nat)
    requires i < |es| && tiles.Valid() && Roster(es, tiles)
    modifies tiles.cells, tiles`liveMap
    modifies tiles`startPos, tiles`targetPos, tiles`weight, tiles`heuristic
    modifies tiles`openList, tiles`cameFrom, tiles`closed, tiles`closeRank, tiles`closeCount
    modifies player`lives, player`lastHit, statics`stage, statics`nearestLiveFound
    modifies es`index, es`micro, es`path, es`lives, es`liveItem, es`fsm
    modifies es`playerOldIndex, es`nearestLive, es`supportPos, es`isKnockedOut, es`gotSupport
    ensures tiles.Valid() && Roster(es, tiles) && player.lives <= old(player.lives)
    ensures es[i].fsm == NextState(old(es[i].fsm), es[i].lives, old(es[i].fsm) == Support && !(1 <= old(statics.stage) <= 4))
    ensures es[i].playerOldIndex == player.index
    ensures forall j :: 0 <= j < |es| && j != i ==> es[j].playerOldIndex == old(es[j].playerOldIndex)
  {
    var e := es[i];
    e.Update(tiles, tiles.View(), player, statics, es);
    forall j | 0 <= j < |es|
      ensures es[j].enemyNum == j && es[j].Valid(tiles)
    {
      if j != i {
        assert es[j] != e;
      }
    }
  }

  /**
   * The enemy loop of CScene2D::Update: every enemy ticks once, in list
   * order, and so has recorded the player's tile; the list stays well
   * formed and the player can only lose lives.
   */
  method UpdateEnemies(tiles: TileMap, player: Player, statics: EnemyStatics, es: seq<Enemy>)
    requires tiles.Valid() && Roster(es, tiles) && player.Valid(tiles)
    modifies tiles.cells, tiles`liveMap
    modifies tiles`startPos, tiles`targetPos, tiles`weight, tiles`heuristic
    modifies tiles`openList, tiles`cameFrom, tiles`closed, tiles`closeRank, tiles`closeCount
    modifies player`lives, player`lastHit, statics`stage, statics`nearestLiveFound
    modifies es`index, es`micro, es`path, es`lives, es`liveItem, es`fsm
    modifies es`playerOldIndex, es`nearestLive, es`supportPos, es`isKnockedOut, es`gotSupport
    ensures tiles.Valid() && Roster(es, tiles) && player.Valid(tiles) && player.lives <= old(player.lives)
    ensures forall j :: 0 <= j < |es| ==> es[j].playerOldIndex == player.index
  {
    var i := 0;
    while i < |es|
      invariant i <= |es| && tiles.Valid() && Roster(es, tiles) && player.Valid(tiles) && player.lives <= old(player.lives)
      invariant forall j :: 0 <= j < i ==> es[j].playerOldIndex == player.index
    {
      TickEnemy(tiles, player, statics, es, i);
      i := i + 1;
    }
  }

  /** CScene2D: the map, the player, the game flags, the enemies' shared statics, the enemy list and the scene clock. */
  class Scene {
    const tiles: TileMap
    const player: Player
    const gm: GameManager
    const statics: EnemyStatics
    var enemies: seq<Enemy>
    var time: real

    /** The map searchable, the player on the grid and the enemy list well formed. */
    ghost predicate Valid()
      reads this`enemies, tiles`curLevel, tiles`liveMap, tiles`startPos, tiles`targetPos, tiles`nrOfDirections
      reads tiles`cameFrom, tiles`closed, tiles`closeRank, tiles`closeCount
      reads player, enemies`index, enemies`path, enemies`enemyNum
    {
      tiles.Valid() && player.Valid(tiles) && Roster(enemies, tiles)
    }

    constructor (tiles: TileMap, player: Player, gm: GameManager, statics: EnemyStatics)
      ensures this.tiles == tiles && this.player == player && this.gm == gm && this.statics == statics
      ensures enemies == [] && time == 0.0
    {
      this.tiles := tiles;
      this.player := player;
      this.gm := gm;
      this.statics := statics;
      enemies := [];
      time := 0.0;
    }

    /**
     * The registration loop of Init: there is one enemy per start tile of
     * the level, each numbered by its place in the list, and no start tile
     * is left on the map.
     */
    method InitEnemies(stepsX: int, stepsY: int)
      requires tiles.Valid() && Placeable(tiles.View(), ENEMY_TILE)
      modifies this`enemies, tiles.cells
      ensures tiles.Valid() && Roster(enemies, tiles) && Occurrences(tiles.View(), ENEMY_TILE) == {}
      ensures |enemies| == |old(Occurrences(tiles.View(), ENEMY_TILE))|
    {
      enemies := RegisterEnemies(tiles, player, stepsX, stepsY);
    }

    /**
     * CScene2D::Update: advances the clock; unless the inventory is open,
     * respawns lives on the map, then moves the player, then the enemies;
     * then a player without lives has lost, and a completed level moves the
     * map to the next one. The result is false exactly when the game is
     * lost and not won.
     */
    method Update(dt: real, inventoryOpen: bool, keys: Intent) returns (running: bool)
      requires Valid()
      modifies this`time, tiles`curLevel, gm`playerLost, gm`levelCompleted
      modifies tiles.cells, tiles`liveMap, tiles`time
      modifies tiles`startPos, tiles`targetPos, tiles`weight, tiles`heuristic
      modifies tiles`openList, tiles`cameFrom, tiles`closed, tiles`closeRank, tiles`closeCount
      modifies player`time, player`oldIndex, player`index, player`micro, player`status, player`onBoundary
      modifies player`inventory, player`lives, player`lastHit
      modifies gm`playerWon, statics`stage, statics`nearestLiveFound
      modifies enemies`index, enemies`micro, enemies`path, enemies`lives, enemies`liveItem, enemies`fsm
      modifies enemies`playerOldIndex, enemies`nearestLive, enemies`supportPos, enemies`isKnockedOut, enemies`gotSupport
      ensures Valid()
      ensures time == old(time) + dt
      ensures !inventoryOpen ==> tiles.time == time && player.time == time
      ensures inventoryOpen ==>
                unchanged(tiles.cells) && tiles.liveMap == old(tiles.liveMap) && unchanged(player) &&
                forall i :: 0 <= i < |enemies| ==> unchanged(enemies[i])
      ensures gm.playerLost == (old(gm.playerLost) || player.lives <= 0)
      ensures !gm.levelCompleted
      ensures tiles.curLevel == if old(gm.levelCompleted) && old(tiles.curLevel) + 1 < tiles.Levels()
                                then old(tiles.curLevel) + 1 else old(tiles.curLevel)
      ensures !running <==> !gm.playerWon && gm.playerLost
    {
      Advance(dt, inventoryOpen, keys);
      running := Resolve();
    }

    /**
     * The first half of the update: the clock always advances, the world
     * ticks only while the inventory is closed, and while it is open no
     * tile, live, player or enemy changes.
     */
    method Advance(dt: real, inventoryOpen: bool, keys: Intent)
      requires Valid()
      modifies this`time
      modifies tiles.cells, tiles`liveMap, tiles`time
      modifies tiles`startPos, tiles`targetPos, tiles`weight, tiles`heuristic
      modifies tiles`openList, tiles`cameFrom, tiles`closed, tiles`closeRank, tiles`closeCount
      modifies player`time, player`oldIndex, player`index, player`micro, player`status, player`onBoundary
      modifies player`inventory, player`lives, player`lastHit
      modifies gm`playerWon, statics`stage, statics`nearestLiveFound
      modifies enemies`index, enemies`micro, enemies`path, enemies`lives, enemies`liveItem, enemies`fsm
      modifies enemies`playerOldIndex, enemies`nearestLive, enemies`supportPos, enemies`isKnockedOut, enemies`gotSupport
      ensures Valid()
      ensures time == old(time) + dt
      ensures !inventoryOpen ==> tiles.time == time && player.time == time
      ensures inventoryOpen ==>
                unchanged(tiles.cells) && tiles.liveMap == old(tiles.liveMap) && unchanged(player) &&
                forall i :: 0 <= i < |enemies| ==> unchanged(enemies[i])
    {
      time := time + dt;
      if !inventoryOpen {
        Tick(keys);
      }
    }

    /**
     * The tick proper, when the inventory is closed: the map respawns its
     * lives, then the player moves, then every enemy does, all at the
     * scene's time; the player can only lose lives to the enemies.
     */
    method Tick(keys: Intent)
      requires Valid()
      modifies tiles.cells, tiles`liveMap, tiles`time
      modifies tiles`startPos, tiles`targetPos, tiles`weight, tiles`heuristic
      modifies tiles`openList, tiles`cameFrom, tiles`closed, tiles`closeRank, tiles`closeCount
      modifies player`time, player`oldIndex, player`index, player`micro, player`status, player`onBoundary
      modifies player`inventory, player`lives, player`lastHit
      modifies gm`playerWon, statics`stage, statics`nearestLiveFound
      modifies enemies`index, enemies`micro, enemies`path, enemies`lives, enemies`liveItem, enemies`fsm
      modifies enemies`playerOldIndex, enemies`nearestLive, enemies`supportPos, enemies`isKnockedOut, enemies`gotSupport
      ensures Valid() && tiles.time == time && player.time == time
      ensures player.lives <= old(player.lives)
    {
      Respawn();
      MovePlayer(keys);
      UpdateEnemies(tiles, player, statics, enemies);
    }

    /** The map's part of the tick: lives respawn at the scene's time. */
    method Respawn()
      requires Valid()
      modifies tiles.cells, tiles`liveMap, tiles`time
      ensures Valid() && tiles.time == time
      ensures tiles.liveMap == TileMap.Respawned(old(tiles.liveMap), time)
    {
      tiles.Update(time);
    }

    /** The player's part of the tick: it moves on the map as the respawns left it. */
    method MovePlayer(keys: Intent)
      requires Valid()
      modifies tiles.cells, tiles`liveMap
      modifies player`time, player`oldIndex, player`index, player`micro, player`status, player`onBoundary
      modifies player`inventory, gm`playerWon
      ensures Valid() && player.time == time && player.lives == old(player.lives)
    {
      player.Update(tiles, tiles.View(), gm, keys, time);
    }

    /**
     * The end of CScene2D::Update: a player without lives has lost; a
     * completed level moves the map to the next level, if there is one,
     * and clears the flag. The result is false exactly when the game is
     * lost and not won.
     */
    method Resolve() returns (running: bool)
      requires Valid()
      modifies tiles`curLevel, gm`playerLost, gm`levelCompleted
      ensures Valid()
      ensures gm.playerLost == (old(gm.playerLost) || player.lives <= 0)
      ensures !gm.levelCompleted
      ensures tiles.curLevel == if old(gm.levelCompleted) && old(tiles.curLevel) + 1 < tiles.Levels()
                                then old(tiles.curLevel) + 1 else old(tiles.curLevel)
      ensures !running <==> !gm.playerWon && gm.playerLost
    {
      if player.lives <= 0 {
        gm.playerLost := true;
      }
      if gm.levelCompleted {
        tiles.SetCurrentLevel(tiles.curLevel + 1);
        gm.levelCompleted := false;
      }
      running := gm.playerWon || !gm.playerLost;
    }
  }
}
