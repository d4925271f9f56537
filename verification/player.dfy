/**
 * The player's health, score and death flag, as the enemy hits and the
 * healing tick change them. Each `sf::Clock` is kept as the time, in
 * milliseconds, of its last restart; the caller passes the current time.
 */
module Players {

  const MAX_HEALTH: int := 10
  /** `healingCooldown`: 5 s between healing ticks. */
  const HEALING_COOLDOWN_MS: int := 5000

  /** The health after a hit: reduced by the damage, but not below zero. */
  function HealthAfterHit(health: int, damage: int): (h: int)
    ensures h >= 0
    ensures h == 0 <==> health - damage <= 0
    ensures h > 0 ==> h == health - damage
  {
    if health - damage < 0 then 0 else health - damage
  }

  class Player {
    var health: int
    var score: int
    var isDead: bool
    var deathFrame: int
    var deathClock: int
    var healingClock: int

    /** Health stays within 0..10, and a player who is not dead has some. */
    ghost predicate Valid()
      reads this
    {
      0 <= health <= MAX_HEALTH && (!isDead ==> health > 0)
    }

    /** The player starts with full health and no score. */
    constructor (now: int)
      ensures Valid()
      ensures health == MAX_HEALTH && score == 0 && !isDead && deathFrame == 0
      ensures healingClock == now && deathClock == now
    {
      health := MAX_HEALTH;
      score := 0;
      isDead := false;
      deathFrame := 0;
      deathClock := now;
      healingClock := now;
    }

    /**
     * `Player::takeDamage`: nothing once dead. Otherwise lose `damage`
     * health down to zero, die at zero, and restart the healing clock.
     */
    method TakeDamage(damage: int, now: int)
      requires Valid()
      modifies this
      ensures damage >= 0 ==> Valid()
      ensures old(isDead) ==> unchanged(this)
      ensures !old(isDead) ==> health == HealthAfterHit(old(health), damage) && isDead == (health == 0)
      ensures !old(isDead) ==> healingClock == now
      ensures !old(isDead) && isDead ==> deathFrame == 0 && deathClock == now
      ensures !isDead ==> deathFrame == old(deathFrame) && deathClock == old(deathClock)
      ensures score == old(score)
    {
      if isDead {
        return;
      }
      health := health - damage;
      if health < 0 {
        health := 0;
      }
      if health <= 0 {
        isDead := true;
        deathClock := now;
        deathFrame := 0;
      }
      healingClock := now;
    }
  }

  /**
   * `updateHealing`: one health point back when below 10 and more than 5 s
   * passed since the healing clock last restarted. It does not look at
   * `isDead`: a dead player heals too.
   */
  method UpdateHealing(player: Player, now: int)
    requires player.Valid()
    modifies player
    ensures player.Valid()
    ensures var heals := old(player.health) < MAX_HEALTH && now - old(player.healingClock) > HEALING_COOLDOWN_MS;
      && player.health == old(player.health) + (if heals then 1 else 0)
      && player.healingClock == (if heals then now else old(player.healingClock))
    ensures player.isDead == old(player.isDead) && player.score == old(player.score)
    ensures player.deathFrame == old(player.deathFrame) && player.deathClock == old(player.deathClock)
  {
    if player.health < 10 && now - player.healingClock > HEALING_COOLDOWN_MS {
      player.health := player.health + 1;
      player.healingClock := now;
    }
  }
}
