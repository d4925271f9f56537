/**
 * The game-level pieces around the enemies: the list of living and dead
 * enemies with its spawn cap, the hit-box overlap test, and the check that
 * every enemy is dead. `rand()` comes in as the sequence of values it would
 * return, one call after another.
 */
module Game {
  import MapManagers
  import Enemies
  import opened Tiles

  /** `MAX_ENEMIES`: no spawn once the list holds this many enemies. */
  const MAX_ENEMIES: int := 5
  /** Spawn positions are tried this many times before giving up. */
  const SPAWN_ATTEMPTS: nat := 100
  /** The game map's size in pixels, as the spawn ranges use it. */
  const MAP_WIDTH_PIXELS: int := 1280
  const MAP_HEIGHT_PIXELS: int := 720
  /** The spawn test looks at the point this far right of and below the corner tried. */
  const SPAWN_PROBE: real := 32.0

  /** An axis-aligned rectangle: its left and top edges and its size. */
  datatype Box = Box(left: real, top: real, width: real, height: real)

  /** The point (x, y) lies strictly inside the box. */
  predicate Inside(b: Box, x: real, y: real) {
    b.left < x < b.left + b.width && b.top < y < b.top + b.height
  }

  /**
   * `intersects`, on the player's and the enemy's hit boxes (the two
   * rectangles it is also handed are not used): the boxes overlap on both
   * axes.
   */
  predicate Intersects(player: Box, enemy: Box): (r: bool)
    ensures r ==> player.width + enemy.width > 0.0 && player.height + enemy.height > 0.0
  {
    && player.left < enemy.left + enemy.width
    && player.left + player.width > enemy.left
    && player.top < enemy.top + enemy.height
    && player.top + player.height > enemy.top
  }

  /** The test does not depend on which box is the player's. */
  lemma IntersectsSymmetric(a: Box, b: Box)
    ensures Intersects(a, b) == Intersects(b, a)
  {
  }

  function Max(a: real, b: real): real { if a >= b then a else b }
  function Min(a: real, b: real): real { if a <= b then a else b }

  /**
   * For boxes of positive size, the test holds exactly when some point lies
   * inside both: the midpoint of the overlap on each axis when they
   * intersect.
   */
  lemma IntersectsMeansSharedPoint(a: Box, b: Box)
    requires a.width > 0.0 && a.height > 0.0 && b.width > 0.0 && b.height > 0.0
    ensures Intersects(a, b) <==> exists x, y :: Inside(a, x, y) && Inside(b, x, y)
  {
    if Intersects(a, b) {
      var x := (Max(a.left, b.left) + Min(a.left + a.width, b.left + b.width)) / 2.0;
      var y := (Max(a.top, b.top) + Min(a.top + a.height, b.top + b.height)) / 2.0;
      assert Inside(a, x, y) && Inside(b, x, y);
    }
  }

  /** The corner tried at attempt k: `rand() % (MAP_WIDTH_PIXELS - 100)`, then the same for y. */
  function SpawnX(rolls: nat -> nat, k: nat): (x: real)
    ensures 0.0 <= x < (MAP_WIDTH_PIXELS - 100) as real
  {
    (rolls(2 * k) % (MAP_WIDTH_PIXELS - 100)) as real
  }

  function SpawnY(rolls: nat -> nat, k: nat): (y: real)
    ensures 0.0 <= y < (MAP_HEIGHT_PIXELS - 100) as real
  {
    (rolls(2 * k + 1) % (MAP_HEIGHT_PIXELS - 100)) as real
  }

  /** Attempt k's corner is a valid spawn: the point 32 px right of and below it is passable. */
  ghost predicate SpawnFits(rows: seq<seq<Tile>>, rolls: nat -> nat, k: nat)
    requires Shaped(rows, MapManagers.MAP_WIDTH, MapManagers.MAP_HEIGHT)
  {
    MapManagers.PositionPassable(rows, SpawnX(rolls, k) + SPAWN_PROBE, SpawnY(rolls, k) + SPAWN_PROBE)
  }

  /** Attempt k is the first that fits. */
  ghost predicate FirstFit(rows: seq<seq<Tile>>, rolls: nat -> nat, k: nat)
    requires Shaped(rows, MapManagers.MAP_WIDTH, MapManagers.MAP_HEIGHT)
  {
    SpawnFits(rows, rolls, k) && forall j: nat :: j < k ==> !SpawnFits(rows, rolls, j)
  }

  /** No attempt before the first fitting one fits. */
  lemma FirstFitBefore(rows: seq<seq<Tile>>, rolls: nat -> nat, k: nat, j: nat)
    requires Shaped(rows, MapManagers.MAP_WIDTH, MapManagers.MAP_HEIGHT)
    requires FirstFit(rows, rolls, k) && j < k
    ensures !SpawnFits(rows, rolls, j)
  {
  }

  /** The first of two attempts that both come first is the same one. */
  lemma FirstFitUnique(rows: seq<seq<Tile>>, rolls: nat -> nat, k: nat, m: nat)
    requires Shaped(rows, MapManagers.MAP_WIDTH, MapManagers.MAP_HEIGHT)
    requires FirstFit(rows, rolls, k) && FirstFit(rows, rolls, m)
    ensures k == m
  {
    if k < m {
      FirstFitBefore(rows, rolls, m, k);
    } else if m < k {
      FirstFitBefore(rows, rolls, k, m);
    }
  }

  /**
   * The spawn loop of `spawnEnemy`: up to 100 attempts, each with two fresh
   * `rand()` values; it stops at the first corner that fits.
   */
  method FindSpawn(mapManager: MapManagers.MapManager, rolls: nat -> nat)
    returns (validPosition: bool, randomX: real, randomY: real)
    requires mapManager.Valid()
    ensures validPosition <==> exists k: nat :: k < SPAWN_ATTEMPTS && SpawnFits(mapManager.currentMap.rows, rolls, k)
    ensures validPosition ==>
      exists k: nat :: k < SPAWN_ATTEMPTS && FirstFit(mapManager.currentMap.rows, rolls, k)
        && randomX == SpawnX(rolls, k) && randomY == SpawnY(rolls, k)
  {
    randomX, randomY := 0.0, 0.0;
    validPosition := false;
    var attempts: nat := 0;
    while !validPosition && attempts < SPAWN_ATTEMPTS
      invariant attempts <= SPAWN_ATTEMPTS
      invariant validPosition ==>
        && attempts >= 1 && FirstFit(mapManager.currentMap.rows, rolls, attempts - 1)
        && randomX == SpawnX(rolls, attempts - 1) && randomY == SpawnY(rolls, attempts - 1)
      invariant !validPosition ==> forall j: nat :: j < attempts ==> !SpawnFits(mapManager.currentMap.rows, rolls, j)
    {
      randomX := SpawnX(rolls, attempts);
      randomY := SpawnY(rolls, attempts);
      var ok := mapManager.IsPositionPassable(randomX + SPAWN_PROBE, randomY + SPAWN_PROBE);
      if ok {
        validPosition := true;
      }
      attempts := attempts + 1;
    }
  }

  /** The global `enemies` list. */
  class World {
    var enemies: seq<Enemies.Enemy>

    /** The list never holds more than the cap. */
    ghost predicate Valid()
      reads this
    {
      |enemies| <= MAX_ENEMIES
    }

    constructor ()
      ensures Valid() && enemies == []
    {
      enemies := [];
    }

    /**
     * `spawnEnemy`: below the cap, make a goblin on map 2 and a slime
     * elsewhere, and try up to 100 random corners; the enemy joins the list
     * at the first corner that fits, and is dropped when none does. With
     * its sprite, the enemy stands at that corner.
     */
    method SpawnEnemy(mapManager: MapManagers.MapManager, texturesLoaded: bool, rolls: nat -> nat, now: int)
      requires Valid() && mapManager.Valid()
      modifies this`enemies
      ensures Valid()
      ensures |old(enemies)| >= MAX_ENEMIES ==> enemies == old(enemies)
      ensures |old(enemies)| < MAX_ENEMIES ==>
        ((exists k: nat :: k < SPAWN_ATTEMPTS && SpawnFits(mapManager.currentMap.rows, rolls, k))
         <==> |enemies| == |old(enemies)| + 1)
      ensures |enemies| != |old(enemies)| + 1 ==> enemies == old(enemies)
      ensures |enemies| == |old(enemies)| + 1 ==>
        var e := enemies[|enemies| - 1];
        && enemies[..|old(enemies)|] == old(enemies) && fresh(e) && e.Valid()
        && e.isGoblin == (mapManager.currentMapNumber == 2)
        && e.health == Enemies.START_HEALTH && e.currentState == Enemies.Idle && e.currentPath == []
        && e.hasSprite == texturesLoaded
        && exists k: nat :: k < SPAWN_ATTEMPTS && FirstFit(mapManager.currentMap.rows, rolls, k)
             && (texturesLoaded ==> e.x == SpawnX(rolls, k) && e.y == SpawnY(rolls, k))
    {
      if |enemies| >= MAX_ENEMIES {
        return;
      }
      var isGoblin := mapManager.currentMapNumber == 2;
      var newEnemy := new Enemies.Enemy(isGoblin, now);
      newEnemy.RenderEnemy(texturesLoaded);
      var validPosition, randomX, randomY := FindSpawn(mapManager, rolls);
      if validPosition {
        newEnemy.SetPosition(randomX, randomY);
        enemies := enemies + [newEnemy];
      }
    }

    /** `areAllEnemiesDead`: no enemy of the list is alive (true of the empty list). */
    method AreAllEnemiesDead() returns (r: bool)
      ensures r <==> forall i :: 0 <= i < |enemies| ==> !enemies[i].isAlive
    {
      var i := 0;
      while i < |enemies|
        invariant 0 <= i <= |enemies|
        invariant forall j :: 0 <= j < i ==> !enemies[j].isAlive
      {
        if enemies[i].isAlive {
          return false;
        }
        i := i + 1;
      }
      return true;
    }
  }
}
