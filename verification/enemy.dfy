/**
 * The game's `Enemy`: its hit points and life, its Idle / Walk / Attack /
 * Hurt / Dead state machine, the path it follows and the animation frame
 * counters. Each `sf::Clock` is kept as the time, in milliseconds, of its
 * last restart, and the caller passes the current time. Distances are
 * compared squared, which is the same comparison without the square root.
 * What the game computes with floating point or asks of the outside (the
 * line of sight, the unit vector toward a waypoint, `rand()`) comes in as
 * parameters.
 */
module Enemies {
  import opened PathFinding
  import MapManagers
  import Sound
  import Players
  import opened Tiles

  datatype State = Idle | Walk | Attack | Hurt | Dead

  const DETECTION_RANGE: real := 300.0
  const ATTACK_RANGE: real := 50.0
  /** A waypoint closer than this is reached. */
  const WAYPOINT_REACHED: real := 8.0
  /** Farther than this from the current waypoint at a path update, search again. */
  const PROGRESS_LIMIT: real := 32.0
  const SMOOTHING: real := 0.15
  const NORMAL_SPEED: real := 1.25
  const WALL_SPEED: real := 0.75
  /** How far from the new position the near-wall probes look. */
  const WALL_PROBE: real := 32.0
  /** Half the drawn sprite: 64 pixel frames scaled by 2. */
  const HALF_SPRITE: real := 64.0
  /** The sprite's corner before any `setPosition`. */
  const START_X: real := 400.0
  const START_Y: real := 100.0
  const START_HEALTH: int := 5

  const STUN_MS: int := 1000
  const HURT_MS: int := 300
  const DEATH_MS: int := 1000
  const DAMAGE_COOLDOWN_MS: int := 500
  const PATH_UPDATE_MS: int := 1000
  const STUCK_MS: int := 500

  /** Points a kill is worth: 20 for a goblin, 10 for a slime. */
  function KillScore(isGoblin: bool): int {
    if isGoblin then 20 else 10
  }

  function DistSq(x1: real, y1: real, x2: real, y2: real): real {
    (x1 - x2) * (x1 - x2) + (y1 - y2) * (y1 - y2)
  }

  /** `distance < r`, for a distance computed as the root of `DistSq`. */
  predicate Closer(x1: real, y1: real, x2: real, y2: real, r: real) {
    DistSq(x1, y1, x2, y2) < r * r
  }

  // ----- the state choice -----

  /**
   * The state `enemyMovement` picks for an enemy neither hurt nor dead:
   * Attack when it sees the player within attack range, Walk when it sees
   * the player farther away, Idle when it does not see the player.
   */
  function Chosen(canSee: bool, inAttackRange: bool): (s: State)
    ensures s == Attack <==> canSee && inAttackRange
    ensures s == Walk <==> canSee && !inAttackRange
    ensures s == Idle <==> !canSee
  {
    if canSee then (if inAttackRange then Attack else Walk) else Idle
  }

  // ----- the animation counters -----

  /** Frames in each animation strip. */
  function FrameCount(isGoblin: bool, s: State): (n: int)
    ensures n >= 4
  {
    if isGoblin then (if s == Attack then 14 else 4)
    else match s
      case Attack => 15
      case Hurt => 4
      case _ => 6
  }

  /** Milliseconds between frames: the goblin attack plays twice as fast. */
  function FrameDelay(isGoblin: bool, s: State): int {
    if isGoblin && s == Attack then 50 else 100
  }

  /** The state and frame after `updateAnimation`, and whether its clock restarts. */
  datatype AnimStep = AnimStep(state: State, frame: int, restart: bool)

  /**
   * `updateAnimation` on the counters, given whether more than a frame delay
   * has passed. Looping strips wrap around; the death strip stops on its last
   * frame; the goblin's attack strip plays once, then the goblin goes Idle.
   */
  function Animate(isGoblin: bool, s: State, frame: int, elapsed: bool): (r: AnimStep)
    requires frame >= 0
    ensures r.frame >= 0
    ensures r.state != s ==> isGoblin && s == Attack && r.state == Idle && r.frame == 0
    ensures r.state == Dead <==> s == Dead
    ensures s == Dead ==> r.frame <= FrameCount(isGoblin, s) - 1
    ensures elapsed && s != Dead ==> r.restart && r.frame < FrameCount(isGoblin, r.state)
    ensures !elapsed ==> !r.restart
  {
    var total := FrameCount(isGoblin, s);
    if s == Dead && frame >= total - 1 then AnimStep(s, total - 1, false)
    else
      var f := if isGoblin && s == Attack && frame >= total then 0 else frame;
      if !elapsed then AnimStep(s, f, false)
      else if s == Dead then AnimStep(s, f + 1, true)
      else if isGoblin && s == Attack then
        (if f < total - 1 then AnimStep(s, f + 1, true) else AnimStep(Idle, 0, true))
      else AnimStep(s, (f + 1) % total, true)
  }

  /** The death strip advances one frame per delay until its last frame, and then stays there. */
  lemma DeathStripStops(isGoblin: bool, frame: int, elapsed: bool)
    requires 0 <= frame
    ensures var r := Animate(isGoblin, Dead, frame, elapsed);
      && (frame < FrameCount(isGoblin, Dead) - 1 ==> r.frame == (if elapsed then frame + 1 else frame))
      && (frame >= FrameCount(isGoblin, Dead) - 1 ==> r.frame == FrameCount(isGoblin, Dead) - 1 && !r.restart)
  {
  }

  /** A goblin's attack runs frames 0 to 13 once; after frame 13 the goblin is Idle at frame 0. */
  lemma GoblinAttackPlaysOnce(frame: int)
    requires 0 <= frame < 14
    ensures var r := Animate(true, Attack, frame, true);
      && (frame < 13 ==> r.state == Attack && r.frame == frame + 1)
      && (frame == 13 ==> r.state == Idle && r.frame == 0)
  {
  }

  /** A slime's strips all loop: every tick of a living slime moves to the next frame, wrapping to 0. */
  lemma SlimeStripsLoop(s: State, frame: int)
    requires s != Dead && 0 <= frame < FrameCount(false, s)
    ensures var r := Animate(false, s, frame, true);
      r.state == s && r.frame == (if frame == FrameCount(false, s) - 1 then 0 else frame + 1)
  {
  }

  // ----- the wall slide -----

  datatype Move = Full | Horizontal | Vertical | Blocked

  /**
   * The move made when the full step's centre, the horizontal step's centre
   * and the vertical step's centre are passable or not: the full step when
   * possible, else the horizontal one, else the vertical one.
   */
  function SlideChoice(fullOk: bool, horizontalOk: bool, verticalOk: bool): (m: Move)
    ensures m == Full <==> fullOk
    ensures m == Horizontal <==> !fullOk && horizontalOk
    ensures m == Vertical <==> !fullOk && !horizontalOk && verticalOk
    ensures m == Blocked <==> !fullOk && !horizontalOk && !verticalOk
  {
    if fullOk then Full else if horizontalOk then Horizontal else if verticalOk then Vertical else Blocked
  }

  /** The pixel centre of a waypoint. */
  function WaypointX(p: Pos): real { p.x as real }
  function WaypointY(p: Pos): real { p.y as real }

  /**
   * The direction toward an offset: the offset divided by its length, which
   * `normalize` computes, when the length is positive; the zero offset
   * otherwise.
   */
  function Heading(dx: real, dy: real, normalize: (real, real) -> (real, real)): (h: (real, real))
    ensures dx == 0.0 && dy == 0.0 ==> h == (0.0, 0.0)
  {
    if dx * dx + dy * dy > 0.0 then normalize(dx, dy) else (dx, dy)
  }

  /**
   * Velocity smoothing on one axis: 85% of the old velocity plus 15% of
   * full speed along the heading. Each step closes 15% of the gap between
   * the velocity and full speed along the heading, so the velocity settles
   * there and, once there, stays.
   */
  function Smoothed(v: real, heading: real, speed: real): (r: real)
    ensures r - heading * speed == (1.0 - SMOOTHING) * (v - heading * speed)
    ensures v == heading * speed ==> r == v
  {
    v * (1.0 - SMOOTHING) + heading * speed * SMOOTHING
  }

  /** Where the sprite's corner goes for each move from (x, y) with velocity (vx, vy); a blocked move keeps the full step only as the probe point. */
  function Destination(m: Move, x: real, y: real, vx: real, vy: real): (d: (real, real))
    ensures (d.0 == x + vx || d.0 == x) && (d.1 == y + vy || d.1 == y)
    ensures m.Full? || m.Blocked? ==> d == (x + vx, y + vy)
  {
    match m
    case Full => (x + vx, y + vy)
    case Horizontal => (x + vx, y)
    case Vertical => (x, y + vy)
    case Blocked => (x + vx, y + vy)
  }

  /** The k-th fallback target around the player, in the order tried: right, left, below, above, 32 px away. */
  function Alternative(px: real, py: real, k: int): (a: (real, real))
    ensures a.0 == px || a.1 == py
    ensures (a.0 - px) * (a.0 - px) + (a.1 - py) * (a.1 - py) == 32.0 * 32.0
  {
    if k == 0 then (px + 32.0, py)
    else if k == 1 then (px - 32.0, py)
    else if k == 2 then (px, py + 32.0)
    else (px, py - 32.0)
  }

  /** The escape offset from one `rand()` value: `rand() % 64 - 32`, within -32..31. */
  function EscapeOffset(roll: nat): (d: real)
    ensures -32.0 <= d <= 31.0
  {
    ((roll % 64) - 32) as real
  }

  /** The near-wall probes: 32 px left of, right of, above and below the corner (x, y). */
  function Probes(x: real, y: real): (ps: seq<(real, real)>)
    ensures |ps| == 4
  {
    [(x - WALL_PROBE, y), (x + WALL_PROBE, y), (x, y - WALL_PROBE), (x, y + WALL_PROBE)]
  }

  /** Some probe around the corner (x, y) is impassable. */
  ghost predicate NearWall(rows: seq<seq<Tile>>, x: real, y: real)
    requires Shaped(rows, MapManagers.MAP_WIDTH, MapManagers.MAP_HEIGHT)
  {
    !AllPassable(rows, Probes(x, y))
  }

  /** Every point of `ps` is passable. */
  ghost predicate AllPassable(rows: seq<seq<Tile>>, ps: seq<(real, real)>)
    requires Shaped(rows, MapManagers.MAP_WIDTH, MapManagers.MAP_HEIGHT)
  {
    ps == [] || (MapManagers.PositionPassable(rows, ps[0].0, ps[0].1) && AllPassable(rows, ps[1..]))
  }

  /** The k-th fallback target was tried and gave nothing: impassable, or no route leads there. */
  ghost predicate FallbackFailed(rows: seq<seq<Tile>>, sx: real, sy: real, px: real, py: real, k: int)
    requires Shaped(rows, MapManagers.MAP_WIDTH, MapManagers.MAP_HEIGHT)
  {
    var a := Alternative(px, py, k);
    !MapManagers.PositionPassable(rows, a.0, a.1) || SearchOutcome(rows, [], PixelTile(sx, sy), PixelTile(a.0, a.1))
  }

  class Enemy {
    const isGoblin: bool
    const attackDamage: int
    /** `enemySprite` is set: the textures loaded and the death animation has not finished. */
    var hasSprite: bool
    /** The sprite's top-left corner. */
    var x: real
    var y: real
    var currentState: State
    var isStunned: bool
    var frame: int
    var speed: real
    var vx: real
    var vy: real
    var currentPath: seq<Pos>
    var currentPathIndex: int
    var detectingPlayer: bool
    var deathAnimationComplete: bool
    var health: int
    var isAlive: bool
    var stunClock: int
    var animationClock: int
    var damageCooldownClock: int
    var hurtClock: int
    var deathClock: int
    var pathUpdateClock: int
    var stuckTimer: int

    /**
     * The path cursor points into a non-empty path; an enemy is alive
     * exactly when it is not Dead, with health left; a dead enemy has no
     * path; only a hurt or dead enemy is stunned; frames never go negative.
     */
    ghost predicate Valid()
      reads this
    {
      && frame >= 0
      && currentPathIndex >= 0
      && (currentPath != [] ==> currentPathIndex < |currentPath|)
      && (isAlive <==> currentState != Dead)
      && (isAlive ==> health > 0)
      && (!isAlive ==> health == 0 && currentPath == [])
      && (isStunned ==> currentState == Hurt || currentState == Dead)
      && (deathAnimationComplete ==> currentState == Dead)
    }

    /** `Enemy(isGoblinType)`: 5 health, Idle, no sprite yet; a goblin hits for 2, a slime for 1. */
    constructor (isGoblinType: bool, now: int)
      ensures Valid()
      ensures isGoblin == isGoblinType && attackDamage == (if isGoblinType then 2 else 1)
      ensures health == START_HEALTH && isAlive && currentState == Idle && !isStunned && frame == 0
      ensures !hasSprite && currentPath == [] && currentPathIndex == 0 && !detectingPlayer && !deathAnimationComplete
      ensures speed == NORMAL_SPEED && vx == 0.0 && vy == 0.0
    {
      isGoblin := isGoblinType;
      attackDamage := if isGoblinType then 2 else 1;
      hasSprite := false;
      x, y := 0.0, 0.0;
      currentState := Idle;
      isStunned := false;
      frame := 0;
      speed := NORMAL_SPEED;
      vx, vy := 0.0, 0.0;
      currentPath := [];
      currentPathIndex := 0;
      detectingPlayer := false;
      deathAnimationComplete := false;
      health := START_HEALTH;
      isAlive := true;
      stunClock, animationClock, damageCooldownClock, hurtClock := now, now, now, now;
      deathClock, pathUpdateClock, stuckTimer := now, now, now;
    }

    /** `renderEnemy`: when every texture loads, the sprite appears at (400, 100). */
    method RenderEnemy(texturesLoaded: bool)
      modifies this`hasSprite, this`x, this`y
      ensures hasSprite == (old(hasSprite) || texturesLoaded)
      ensures texturesLoaded ==> x == START_X && y == START_Y
      ensures !texturesLoaded ==> x == old(x) && y == old(y)
    {
      if !texturesLoaded {
        return;
      }
      hasSprite := true;
      x, y := START_X, START_Y;
    }

    /** `setPosition`: moves the sprite, when there is one. */
    method SetPosition(px: real, py: real)
      modifies this`x, this`y
      ensures hasSprite ==> x == px && y == py
      ensures !hasSprite ==> x == old(x) && y == old(y)
    {
      if hasSprite {
        x, y := px, py;
      }
    }

    /**
     * `Enemy::takeDamage`: nothing when dead or within 500 ms of the last
     * hit taken. A hit that leaves no health kills: state Dead, no path, no
     * velocity, and the player scores 20 for a goblin or 10 for a slime. A
     * hit that leaves health stuns and hurts, unless already hurt. Either
     * way the cooldown restarts.
     */
    method TakeDamage(damage: int, now: int, player: Players.Player)
      requires Valid()
      modifies this`health, this`isAlive, this`currentState, this`deathClock, this`frame, this`currentPath
      modifies this`vx, this`vy, this`isStunned, this`stunClock, this`hurtClock, this`damageCooldownClock
      modifies player`score
      ensures Valid()
      ensures var applies := old(isAlive) && now - old(damageCooldownClock) >= DAMAGE_COOLDOWN_MS;
        && (!applies ==> unchanged(this) && player.score == old(player.score))
        && (applies ==> damageCooldownClock == now && health == Players.HealthAfterHit(old(health), damage))
        && (applies && old(health) - damage <= 0 ==>
              && !isAlive && currentState == Dead && frame == 0 && deathClock == now
              && currentPath == [] && vx == 0.0 && vy == 0.0
              && isStunned == old(isStunned)
              && player.score == old(player.score) + KillScore(isGoblin))
        && (applies && old(health) - damage > 0 ==>
              && isAlive && player.score == old(player.score)
              && currentPath == old(currentPath) && vx == old(vx) && vy == old(vy)
              && (old(currentState) != Hurt ==>
                    isStunned && currentState == Hurt && frame == 0 && stunClock == now && hurtClock == now)
              && (old(currentState) == Hurt ==>
                    isStunned == old(isStunned) && currentState == Hurt && frame == old(frame)
                    && stunClock == old(stunClock) && hurtClock == old(hurtClock)))
    {
      if !isAlive || now - damageCooldownClock < DAMAGE_COOLDOWN_MS {
        return;
      }
      health := health - damage;
      if health <= 0 {
        Die(now, player);
      } else if currentState != Hurt {
        isStunned := true;
        stunClock := now;
        currentState := Hurt;
        hurtClock := now;
        frame := 0;
      }
      damageCooldownClock := now;
    }

    /**
     * The lethal hit of `takeDamage`: no health, Dead from frame 0 with the
     * death clock restarted, no path, no velocity; the player scores the kill.
     */
    method Die(now: int, player: Players.Player)
      modifies this`health, this`isAlive, this`currentState, this`deathClock, this`frame, this`currentPath
      modifies this`vx, this`vy, player`score
      ensures health == 0 && !isAlive && currentState == Dead && frame == 0 && deathClock == now
      ensures currentPath == [] && vx == 0.0 && vy == 0.0
      ensures player.score == old(player.score) + KillScore(isGoblin)
    {
      isAlive := false;
      health := 0;
      currentState := Dead;
      deathClock := now;
      frame := 0;
      currentPath := [];
      vx, vy := 0.0, 0.0;
      if isGoblin {
        player.score := player.score + 20;
      } else {
        player.score := player.score + 10;
      }
    }

    /** `updateAnimation`: advance the frame counters of the strip for the current state, when there is a sprite. */
    method UpdateAnimation(now: int)
      requires Valid()
      modifies this`currentState, this`frame, this`animationClock
      ensures Valid()
      ensures !old(hasSprite) ==> unchanged(this)
      ensures old(hasSprite) ==>
        var r := Animate(isGoblin, old(currentState), old(frame), now - old(animationClock) > FrameDelay(isGoblin, old(currentState)));
        currentState == r.state && frame == r.frame && animationClock == (if r.restart then now else old(animationClock))
    {
      if !hasSprite {
        return;
      }
      var totalFrames := 0;
      var currentFrameDelay := 100;
      if isGoblin {
        match currentState {
          case Dead =>
            totalFrames := 4;
            if frame >= totalFrames - 1 {
              frame := totalFrames - 1;
              return;
            }
          case Attack =>
            totalFrames := 14;
            currentFrameDelay := 50;
            if frame >= totalFrames {
              frame := 0;
            }
          case _ =>
            totalFrames := 4;
        }
        if now - animationClock > currentFrameDelay {
          if currentState == Dead {
            if frame < totalFrames - 1 {
              frame := frame + 1;
            }
          } else if currentState == Attack {
            if frame < totalFrames - 1 {
              frame := frame + 1;
            } else {
              currentState := Idle;
              frame := 0;
            }
          } else {
            frame := (frame + 1) % totalFrames;
          }
          animationClock := now;
        }
      } else {
        match currentState {
          case Dead =>
            totalFrames := 6;
            if frame >= totalFrames - 1 {
              frame := totalFrames - 1;
              return;
            }
          case Idle =>
            totalFrames := 6;
          case Walk =>
            totalFrames := 6;
          case Attack =>
            totalFrames := 15;
          case Hurt =>
            totalFrames := 4;
        }
        if now - animationClock > currentFrameDelay {
          if currentState == Dead {
            if frame < totalFrames - 1 {
              frame := frame + 1;
            }
          } else {
            frame := (frame + 1) % totalFrames;
          }
          animationClock := now;
        }
      }
    }

    /**
     * The Dead branch of `enemyMovement`: until the death animation is
     * complete, play it; once the death clock passes 1 s it is complete, the
     * sprite goes, and the background track returns if the critical theme
     * was playing.
     */
    method HandleDeath(now: int, sfx: Sound.SFX)
      requires Valid() && sfx.Valid() && currentState == Dead
      modifies this`currentState, this`frame, this`animationClock, this`deathAnimationComplete, this`hasSprite, sfx
      ensures Valid() && sfx.Valid() && currentState == Dead
      ensures old(deathAnimationComplete) ==> unchanged(this) && unchanged(sfx)
      ensures !old(deathAnimationComplete) ==> deathAnimationComplete == (now - deathClock > DEATH_MS)
      ensures !old(deathAnimationComplete) && deathAnimationComplete ==> !hasSprite && !sfx.criticalMusicPlaying
      ensures !deathAnimationComplete ==> hasSprite == old(hasSprite) && sfx.criticalMusicPlaying == old(sfx.criticalMusicPlaying)
      ensures sfx.musicLoaded == old(sfx.musicLoaded) && sfx.enemiesDetectingPlayer == old(sfx.enemiesDetectingPlayer)
    {
      if !deathAnimationComplete {
        UpdateAnimation(now);
        if now - deathClock > DEATH_MS {
          deathAnimationComplete := true;
          hasSprite := false;
          if sfx.criticalMusicPlaying {
            sfx.PlayBackgroundMusic();
          }
        }
      }
    }

    /** The Hurt branch of `enemyMovement`: play the hurt strip; after 300 ms go Idle and end the stun. */
    method HandleHurt(now: int)
      requires Valid() && currentState == Hurt
      modifies this`currentState, this`frame, this`animationClock, this`isStunned
      ensures Valid()
      ensures currentState == (if now - hurtClock > HURT_MS then Idle else Hurt)
      ensures isStunned == (old(isStunned) && currentState == Hurt)
    {
      UpdateAnimation(now);
      if now - hurtClock > HURT_MS {
        currentState := Idle;
        isStunned := false;
      }
    }

    /** Tell the counter when this enemy starts seeing the player, or (while the count is at most 1) stops. */
    method UpdateDetection(canSee: bool, sfx: Sound.SFX)
      requires sfx.Valid()
      modifies this`detectingPlayer, sfx
      ensures sfx.Valid() && detectingPlayer == canSee
      ensures sfx.musicLoaded == old(sfx.musicLoaded)
      ensures sfx.enemiesDetectingPlayer
        == Sound.SignalAsWritten(sfx.musicLoaded, old(detectingPlayer), canSee, old(sfx.enemiesDetectingPlayer))
    {
      if !detectingPlayer && canSee {
        sfx.EnemyDetectedPlayer();
      } else if detectingPlayer && !canSee {
        if sfx.enemiesDetectingPlayer <= 1 {
          sfx.EnemyLostPlayer();
        }
      }
      detectingPlayer := canSee;
    }

    /**
     * The state management of `enemyMovement`, from the enemy's centre
     * (sx, sy) and the player's (px, py). Attack and Idle drop the path and
     * stop; Walk searches for a path when there is none, and at each path
     * update (every 1 s) searches again if the current waypoint is more than
     * 32 px away.
     */
    method ChooseState(now: int, sx: real, sy: real, px: real, py: real, canSee: bool, mapManager: MapManagers.MapManager)
      requires Valid() && isAlive && currentState != Hurt && mapManager.Valid()
      requires canSee ==> Closer(sx, sy, px, py, DETECTION_RANGE)
      modifies this`currentState, this`currentPath, this`currentPathIndex, this`vx, this`vy, this`pathUpdateClock
      ensures Valid()
      ensures currentState == Chosen(canSee, Closer(sx, sy, px, py, ATTACK_RANGE))
      ensures currentState != Walk ==> currentPath == [] && vx == 0.0 && vy == 0.0 && pathUpdateClock == old(pathUpdateClock)
      ensures currentState == Walk ==> vx == old(vx) && vy == old(vy)
      ensures currentState == Walk && old(currentPath) == [] ==>
        && currentPathIndex == 0 && pathUpdateClock == old(pathUpdateClock)
        && SearchOutcome(mapManager.currentMap.rows, currentPath, PixelTile(sx, sy), PixelTile(px, py))
      ensures currentState == Walk && old(currentPath) != [] ==>
        var due := now - old(pathUpdateClock) >= PATH_UPDATE_MS;
        var wp := old(currentPath)[old(currentPathIndex)];
        var strayed := DistSq(WaypointX(wp), WaypointY(wp), sx, sy) > PROGRESS_LIMIT * PROGRESS_LIMIT;
        && pathUpdateClock == (if due then now else old(pathUpdateClock))
        && (due && strayed ==>
              currentPathIndex == 0 && SearchOutcome(mapManager.currentMap.rows, currentPath, PixelTile(sx, sy), PixelTile(px, py)))
        && (!(due && strayed) ==> currentPath == old(currentPath) && currentPathIndex == old(currentPathIndex))
    {
      if canSee {
        if Closer(sx, sy, px, py, ATTACK_RANGE) {
          currentState := Attack;
          currentPath := [];
          vx, vy := 0.0, 0.0;
        } else if Closer(sx, sy, px, py, DETECTION_RANGE) {
          currentState := Walk;
          if currentPath == [] {
            currentPath := FindPath(mapManager, sx, sy, px, py);
            currentPathIndex := 0;
          } else if now - pathUpdateClock >= PATH_UPDATE_MS {
            var wp := currentPath[currentPathIndex];
            if DistSq(WaypointX(wp), WaypointY(wp), sx, sy) > PROGRESS_LIMIT * PROGRESS_LIMIT {
              currentPath := FindPath(mapManager, sx, sy, px, py);
              currentPathIndex := 0;
            }
            pathUpdateClock := now;
          }
        }
      } else {
        currentState := Idle;
        currentPath := [];
        vx, vy := 0.0, 0.0;
      }
    }

    /**
     * Heading for the current waypoint: one within 8 px is passed. Past the
     * last waypoint the enemy ends its frame, with a new path to the player
     * when it sees the player within detection range, with none otherwise.
     */
    method AdvanceCursor(sx: real, sy: real, px: real, py: real, canSee: bool, mapManager: MapManagers.MapManager)
      returns (target: Pos, ended: bool)
      requires Valid() && isAlive && currentPath != [] && mapManager.Valid()
      modifies this`currentPath, this`currentPathIndex
      ensures Valid()
      ensures var wp := old(currentPath)[old(currentPathIndex)];
        var reached := DistSq(WaypointX(wp), WaypointY(wp), sx, sy) < WAYPOINT_REACHED * WAYPOINT_REACHED;
        && (!reached ==> !ended && target == wp && currentPath == old(currentPath) && currentPathIndex == old(currentPathIndex))
        && (reached && old(currentPathIndex) + 1 < |old(currentPath)| ==>
              && !ended && currentPath == old(currentPath) && currentPathIndex == old(currentPathIndex) + 1
              && target == currentPath[currentPathIndex])
        && (ended <==> reached && old(currentPathIndex) + 1 == |old(currentPath)|)
      ensures ended && canSee && Closer(sx, sy, px, py, DETECTION_RANGE) ==>
        currentPathIndex == 0 && SearchOutcome(mapManager.currentMap.rows, currentPath, PixelTile(sx, sy), PixelTile(px, py))
      ensures ended && !(canSee && Closer(sx, sy, px, py, DETECTION_RANGE)) ==> currentPath == []
    {
      target := currentPath[currentPathIndex];
      ended := false;
      if DistSq(WaypointX(target), WaypointY(target), sx, sy) < WAYPOINT_REACHED * WAYPOINT_REACHED {
        currentPathIndex := currentPathIndex + 1;
        if currentPathIndex >= |currentPath| {
          if canSee && Closer(sx, sy, px, py, DETECTION_RANGE) {
            currentPath := FindPath(mapManager, sx, sy, px, py);
            currentPathIndex := 0;
          } else {
            currentPath := [];
          }
          ended := true;
          return;
        }
        target := currentPath[currentPathIndex];
      }
    }

    /**
     * Collision and wall slide: the full step when its centre is passable,
     * else the horizontal step, else the vertical one, else none. `newX`,
     * `newY` are where the corner goes (the full step when blocked).
     */
    method ChooseMove(mapManager: MapManagers.MapManager) returns (move: Move, newX: real, newY: real)
      requires mapManager.Valid()
      ensures var rows := mapManager.currentMap.rows;
        move == SlideChoice(
          MapManagers.PositionPassable(rows, x + vx + HALF_SPRITE, y + vy + HALF_SPRITE),
          MapManagers.PositionPassable(rows, x + vx + HALF_SPRITE, y + HALF_SPRITE),
          MapManagers.PositionPassable(rows, x + HALF_SPRITE, y + vy + HALF_SPRITE))
      ensures (newX, newY) == Destination(move, x, y, vx, vy)
    {
      newX, newY := x + vx, y + vy;
      var canMove := mapManager.IsPositionPassable(newX + HALF_SPRITE, newY + HALF_SPRITE);
      move := Full;
      if !canMove {
        var horizontalX, horizontalY := x + vx, y;
        var ok := mapManager.IsPositionPassable(horizontalX + HALF_SPRITE, horizontalY + HALF_SPRITE);
        if ok {
          newX, newY := horizontalX, horizontalY;
          move := Horizontal;
        } else {
          var verticalX, verticalY := x, y + vy;
          ok := mapManager.IsPositionPassable(verticalX + HALF_SPRITE, verticalY + HALF_SPRITE);
          if ok {
            newX, newY := verticalX, verticalY;
            move := Vertical;
          } else {
            move := Blocked;
          }
        }
      }
    }

    /**
     * Blocked: drop the path, stop, and take the first path found to a
     * passable target around the player, if any.
     */
    method Replan(sx: real, sy: real, px: real, py: real, mapManager: MapManagers.MapManager)
      requires Valid() && isAlive && mapManager.Valid()
      modifies this`currentPath, this`currentPathIndex, this`vx, this`vy
      ensures Valid() && vx == 0.0 && vy == 0.0
      ensures currentPath == [] ==> forall k :: 0 <= k < 4 ==> FallbackFailed(mapManager.currentMap.rows, sx, sy, px, py, k)
      ensures currentPath != [] ==> currentPathIndex == 0 && FirstFallback(mapManager.currentMap.rows, sx, sy, px, py, currentPath)
    {
      currentPath := [];
      vx, vy := 0.0, 0.0;
      var fallback := FallbackPath(sx, sy, px, py, mapManager);
      currentPath := fallback;
      if fallback != [] {
        currentPathIndex := 0;
      }
    }

    /**
     * Still blocked: after more than 500 ms without moving, search a path to
     * a random point within 32 px of the enemy's centre, if that point is
     * passable, and restart the stuck timer.
     */
    method Escape(now: int, sx: real, sy: real, rollX: nat, rollY: nat, mapManager: MapManagers.MapManager)
      requires Valid() && isAlive && mapManager.Valid()
      modifies this`currentPath, this`currentPathIndex, this`stuckTimer
      ensures Valid()
      ensures var stuck := now - old(stuckTimer) > STUCK_MS;
        var ex, ey := sx + EscapeOffset(rollX), sy + EscapeOffset(rollY);
        var escapes := stuck && MapManagers.PositionPassable(mapManager.currentMap.rows, ex, ey);
        && stuckTimer == (if stuck then now else old(stuckTimer))
        && (escapes ==>
              currentPathIndex == 0 && SearchOutcome(mapManager.currentMap.rows, currentPath, PixelTile(sx, sy), PixelTile(ex, ey)))
        && (!escapes ==> currentPath == old(currentPath) && currentPathIndex == old(currentPathIndex))
    {
      if now - stuckTimer > STUCK_MS {
        var ok, escapePath := EscapePath(sx, sy, rollX, rollY, mapManager);
        if ok {
          currentPath := escapePath;
          currentPathIndex := 0;
        }
        stuckTimer := now;
      }
    }

    /**
     * Collision and wall slide with the velocity (vx, vy): take the full
     * step, or slide horizontally, or vertically; blocked, stay, replan and
     * maybe escape. (`newX`, `newY`) is the corner the step was tried at,
     * which the near-wall probes look around.
     */
    method Slide(now: int, sx: real, sy: real, px: real, py: real, rollX: nat, rollY: nat,
                 mapManager: MapManagers.MapManager)
      returns (move: Move, newX: real, newY: real)
      requires Valid() && isAlive && mapManager.Valid()
      modifies this`currentPath, this`currentPathIndex, this`vx, this`vy, this`x, this`y, this`stuckTimer
      ensures Valid()
      ensures var rows := mapManager.currentMap.rows;
        move == SlideChoice(
          MapManagers.PositionPassable(rows, old(x) + old(vx) + HALF_SPRITE, old(y) + old(vy) + HALF_SPRITE),
          MapManagers.PositionPassable(rows, old(x) + old(vx) + HALF_SPRITE, old(y) + HALF_SPRITE),
          MapManagers.PositionPassable(rows, old(x) + HALF_SPRITE, old(y) + old(vy) + HALF_SPRITE))
      ensures (newX, newY) == Destination(move, old(x), old(y), old(vx), old(vy))
      ensures move != Blocked ==>
        && x == newX && y == newY && vx == old(vx) && vy == old(vy)
        && stuckTimer == now && currentPath == old(currentPath)
      ensures move == Blocked ==>
        && x == old(x) && y == old(y) && vx == 0.0 && vy == 0.0
        && stuckTimer == (if now - old(stuckTimer) > STUCK_MS then now else old(stuckTimer))
    {
      move, newX, newY := ChooseMove(mapManager);
      if move != Blocked {
        x, y := newX, newY;
        stuckTimer := now;
      } else {
        Replan(sx, sy, px, py, mapManager);
        Escape(now, sx, sy, rollX, rollY, mapManager);
      }
    }

    /**
     * The movement of `enemyMovement` for a walking enemy that sees the
     * player and has a path: pass reached waypoints and, unless the path is used
     * up (`ended`, which ends the frame), smooth the velocity toward the
     * current one, step, and walk at 0.75 near a wall, else at 1.25.
     */
    method FollowPath(now: int, sx: real, sy: real, px: real, py: real, canSee: bool,
                      normalize: (real, real) -> (real, real), rollX: nat, rollY: nat,
                      mapManager: MapManagers.MapManager)
      returns (ended: bool)
      requires Valid() && isAlive && currentPath != [] && mapManager.Valid()
      requires canSee && Closer(sx, sy, px, py, DETECTION_RANGE)
      modifies this`currentPath, this`currentPathIndex, this`vx, this`vy, this`x, this`y, this`stuckTimer, this`speed
      ensures Valid()
      ensures ended ==>
        && x == old(x) && y == old(y) && vx == old(vx) && vy == old(vy) && speed == old(speed)
        && currentPathIndex == 0
        && SearchOutcome(mapManager.currentMap.rows, currentPath, PixelTile(sx, sy), PixelTile(px, py))
    {
      var target;
      target, ended := AdvanceCursor(sx, sy, px, py, canSee, mapManager);
      if ended {
        return;
      }
      var d := Heading(WaypointX(target) - sx, WaypointY(target) - sy, normalize);
      vx := Smoothed(vx, d.0, speed);
      vy := Smoothed(vy, d.1, speed);
      var move, newX, newY := Slide(now, sx, sy, px, py, rollX, rollY, mapManager);
      var nearWall := NearWallAt(newX, newY, mapManager);
      speed := if nearWall then WALL_SPEED else NORMAL_SPEED;
    }

    /**
     * From the enemy's centre (sx, sy): it sees the player within 300 px
     * with a clear line of sight, reports that to the counter and picks its
     * state.
     */
    method Perceive(now: int, sx: real, sy: real, playerX: real, playerY: real, lineOfSight: bool,
                    sfx: Sound.SFX, mapManager: MapManagers.MapManager)
      returns (canSee: bool)
      requires Valid() && sfx.Valid() && mapManager.Valid()
      requires isAlive && currentState != Hurt
      modifies this`detectingPlayer, this`currentState, this`currentPath, this`currentPathIndex, this`vx, this`vy
      modifies this`pathUpdateClock, sfx
      ensures Valid() && sfx.Valid()
      ensures canSee == (Closer(sx, sy, playerX, playerY, DETECTION_RANGE) && lineOfSight)
      ensures detectingPlayer == canSee && sfx.musicLoaded == old(sfx.musicLoaded)
      ensures sfx.enemiesDetectingPlayer
        == Sound.SignalAsWritten(sfx.musicLoaded, old(detectingPlayer), canSee, old(sfx.enemiesDetectingPlayer))
      ensures currentState == Chosen(canSee, Closer(sx, sy, playerX, playerY, ATTACK_RANGE))
      ensures currentState != Walk ==> currentPath == [] && vx == 0.0 && vy == 0.0
    {
      canSee := false;
      if Closer(sx, sy, playerX, playerY, DETECTION_RANGE) {
        canSee := lineOfSight;
      }
      UpdateDetection(canSee, sfx);
      ChooseState(now, sx, sy, playerX, playerY, canSee, mapManager);
    }

    /**
     * The rest of `enemyMovement` for a living enemy neither hurt nor dead:
     * it sees the player when within 300 px with a clear line of sight,
     * reports that to the counter, picks its state and, walking, follows its
     * path; unless the path is used up, the animation advances.
     */
    method Pursue(now: int, playerX: real, playerY: real, lineOfSight: bool,
                  normalize: (real, real) -> (real, real), rollX: nat, rollY: nat,
                  sfx: Sound.SFX, mapManager: MapManagers.MapManager)
      requires Valid() && sfx.Valid() && mapManager.Valid()
      requires isAlive && currentState != Hurt
      modifies this`detectingPlayer, this`currentState, this`currentPath, this`currentPathIndex, this`vx, this`vy
      modifies this`pathUpdateClock, this`x, this`y, this`stuckTimer, this`speed, this`frame, this`animationClock, sfx
      ensures Valid() && sfx.Valid()
      ensures var sx, sy := old(x) + HALF_SPRITE, old(y) + HALF_SPRITE;
        var canSee := Closer(sx, sy, playerX, playerY, DETECTION_RANGE) && lineOfSight;
        var chosen := Chosen(canSee, Closer(sx, sy, playerX, playerY, ATTACK_RANGE));
        && detectingPlayer == canSee
        && sfx.enemiesDetectingPlayer
           == Sound.SignalAsWritten(sfx.musicLoaded, old(detectingPlayer), canSee, old(sfx.enemiesDetectingPlayer))
        && (currentState == chosen || (isGoblin && chosen == Attack && currentState == Idle))
      ensures currentState != Walk ==> currentPath == [] && vx == 0.0 && vy == 0.0
    {
      var sx, sy := x + HALF_SPRITE, y + HALF_SPRITE;
      var canSee := Perceive(now, sx, sy, playerX, playerY, lineOfSight, sfx, mapManager);
      if canSee && currentState == Walk && currentPath != [] && currentPathIndex < |currentPath| {
        var ended := FollowPath(now, sx, sy, playerX, playerY, canSee, normalize, rollX, rollY, mapManager);
        if ended {
          return;
        }
      }
      UpdateAnimation(now);
    }

    /**
     * `enemyMovement`, one frame, with the player's centre at (playerX,
     * playerY). Nothing happens without a sprite. A dead enemy stays Dead and
     * only plays its death; a hurt one plays its hurt strip until it goes
     * Idle. Otherwise the enemy sees the player when within 300 px with a
     * clear line of sight, reports that to the counter, picks its state and,
     * walking, follows its path.
     */
    method EnemyMovement(now: int, playerX: real, playerY: real, lineOfSight: bool,
                         normalize: (real, real) -> (real, real), rollX: nat, rollY: nat,
                         sfx: Sound.SFX, mapManager: MapManagers.MapManager)
      requires Valid() && sfx.Valid() && mapManager.Valid()
      modifies this, sfx
      ensures Valid() && sfx.Valid()
      ensures !old(hasSprite) ==> unchanged(this) && unchanged(sfx)
      ensures old(currentState) == Dead ==> currentState == Dead
      ensures old(hasSprite) && old(currentState) == Hurt ==>
        currentState == (if now - hurtClock > HURT_MS then Idle else Hurt) && unchanged(sfx)
      ensures old(hasSprite) && old(currentState) != Dead && old(currentState) != Hurt ==>
        var sx, sy := old(x) + HALF_SPRITE, old(y) + HALF_SPRITE;
        var canSee := Closer(sx, sy, playerX, playerY, DETECTION_RANGE) && lineOfSight;
        var chosen := Chosen(canSee, Closer(sx, sy, playerX, playerY, ATTACK_RANGE));
        && detectingPlayer == canSee
        && sfx.enemiesDetectingPlayer
           == Sound.SignalAsWritten(sfx.musicLoaded, old(detectingPlayer), canSee, old(sfx.enemiesDetectingPlayer))
        && (currentState == chosen || (isGoblin && chosen == Attack && currentState == Idle))
        && (currentState != Walk ==> currentPath == [] && vx == 0.0 && vy == 0.0)
    {
      if !hasSprite {
        return;
      }
      if currentState == Dead {
        HandleDeath(now, sfx);
        return;
      }
      if currentState == Hurt {
        HandleHurt(now);
        return;
      }
      // Only a hurt or dead enemy is stunned, and a living one is not Dead,
      // so the stun check and the `!isAlive` return that come next in
      // `enemyMovement` never fire here.
      assert !isStunned && isAlive;
      Pursue(now, playerX, playerY, lineOfSight, normalize, rollX, rollY, sfx, mapManager);
    }
  }

  /** The k-th fallback target is passable and `path` is the search's result toward it. */
  ghost predicate FoundFallback(rows: seq<seq<Tile>>, sx: real, sy: real, px: real, py: real, k: int, path: seq<Pos>)
    requires Shaped(rows, MapManagers.MAP_WIDTH, MapManagers.MAP_HEIGHT)
  {
    var a := Alternative(px, py, k);
    MapManagers.PositionPassable(rows, a.0, a.1) && SearchOutcome(rows, path, PixelTile(sx, sy), PixelTile(a.0, a.1))
  }

  /** `path` is the search's result toward the first fallback target that gave one. */
  ghost predicate FirstFallback(rows: seq<seq<Tile>>, sx: real, sy: real, px: real, py: real, path: seq<Pos>)
    requires Shaped(rows, MapManagers.MAP_WIDTH, MapManagers.MAP_HEIGHT)
  {
    exists k :: 0 <= k < 4 && FoundFallback(rows, sx, sy, px, py, k, path)
      && (forall j :: 0 <= j < k ==> FallbackFailed(rows, sx, sy, px, py, j))
  }

  /**
   * Stuck against a wall, the enemy tries the four targets 32 px around the
   * player in turn and keeps the first path found to a passable one; the
   * result is empty when every one failed.
   */
  method FallbackPath(sx: real, sy: real, px: real, py: real, mapManager: MapManagers.MapManager)
    returns (path: seq<Pos>)
    requires mapManager.Valid()
    ensures var rows := mapManager.currentMap.rows;
      path == [] ==> forall k :: 0 <= k < 4 ==> FallbackFailed(rows, sx, sy, px, py, k)
    ensures path != [] ==> FirstFallback(mapManager.currentMap.rows, sx, sy, px, py, path)
  {
    path := [];
    var k := 0;
    while k < 4
      invariant 0 <= k <= 4 && path == []
      invariant forall j :: 0 <= j < k ==> FallbackFailed(mapManager.currentMap.rows, sx, sy, px, py, j)
    {
      var target := Alternative(px, py, k);
      var ok := mapManager.IsPositionPassable(target.0, target.1);
      if ok {
        path := FindPath(mapManager, sx, sy, target.0, target.1);
        if path != [] {
          assert FoundFallback(mapManager.currentMap.rows, sx, sy, px, py, k, path);
          return;
        }
      }
      k := k + 1;
    }
  }

  /**
   * The escape search of an enemy stuck too long: toward a random point
   * within 32 px of its centre, made only when that point is passable.
   */
  method EscapePath(sx: real, sy: real, rollX: nat, rollY: nat, mapManager: MapManagers.MapManager)
    returns (ok: bool, path: seq<Pos>)
    requires mapManager.Valid()
    ensures var ex, ey := sx + EscapeOffset(rollX), sy + EscapeOffset(rollY);
      && ok == MapManagers.PositionPassable(mapManager.currentMap.rows, ex, ey)
      && (ok ==> SearchOutcome(mapManager.currentMap.rows, path, PixelTile(sx, sy), PixelTile(ex, ey)))
  {
    var escapeX, escapeY := sx + EscapeOffset(rollX), sy + EscapeOffset(rollY);
    ok := mapManager.IsPositionPassable(escapeX, escapeY);
    path := [];
    if ok {
      path := FindPath(mapManager, sx, sy, escapeX, escapeY);
    }
  }

  /** The near-wall probes in order, stopping at the first impassable one: whether the corner (x, y) is near a wall. */
  method NearWallAt(x: real, y: real, mapManager: MapManagers.MapManager) returns (nearWall: bool)
    requires mapManager.Valid()
    ensures nearWall == NearWall(mapManager.currentMap.rows, x, y)
  {
    var probes := Probes(x, y);
    nearWall := false;
    var k := 0;
    while k < 4
      invariant 0 <= k <= 4 && !nearWall
      invariant AllPassable(mapManager.currentMap.rows, probes) == AllPassable(mapManager.currentMap.rows, probes[k..])
    {
      assert probes[k..][1..] == probes[k + 1..];
      var ok := mapManager.IsPositionPassable(probes[k].0, probes[k].1);
      if !ok {
        nearWall := true;
        return;
      }
      k := k + 1;
    }
  }
}
