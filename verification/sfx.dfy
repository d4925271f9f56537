/**
 * The game's `SFX` object, without the music streams themselves: whether
 * both tracks loaded, whether the critical theme is the one playing, and how
 * many enemies it believes are detecting the player.
 */
module Sound {

  class SFX {
    var criticalMusicPlaying: bool
    var musicLoaded: bool
    var enemiesDetectingPlayer: int

    /** The count is never negative, and nothing counts or plays before the music loads. */
    ghost predicate Valid()
      reads this
    {
      enemiesDetectingPlayer >= 0 && (!musicLoaded ==> enemiesDetectingPlayer == 0 && !criticalMusicPlaying)
    }

    constructor ()
      ensures Valid()
      ensures !criticalMusicPlaying && !musicLoaded && enemiesDetectingPlayer == 0
    {
      criticalMusicPlaying := false;
      musicLoaded := false;
      enemiesDetectingPlayer := 0;
    }

    /** `initializeAudio`: the music counts as loaded only when both tracks opened. */
    method InitializeAudio(backgroundOpened: bool, criticalOpened: bool)
      requires Valid()
      modifies this
      ensures Valid()
      ensures musicLoaded == (old(musicLoaded) || (backgroundOpened && criticalOpened))
      ensures criticalMusicPlaying == old(criticalMusicPlaying)
      ensures enemiesDetectingPlayer == old(enemiesDetectingPlayer)
    {
      if !backgroundOpened {
        return;
      }
      if !criticalOpened {
        return;
      }
      musicLoaded := true;
    }

    /** `playCriticalTheme`: switch to the critical theme, once the music is loaded. */
    method PlayCriticalTheme()
      requires Valid()
      modifies this
      ensures Valid()
      ensures criticalMusicPlaying == (old(criticalMusicPlaying) || musicLoaded)
      ensures musicLoaded == old(musicLoaded) && enemiesDetectingPlayer == old(enemiesDetectingPlayer)
    {
      if !musicLoaded {
        return;
      }
      if !criticalMusicPlaying {
        criticalMusicPlaying := true;
      }
    }

    /** `playBackgroundMusic`: switch back to the background track, once the music is loaded. */
    method PlayBackgroundMusic()
      requires Valid()
      modifies this
      ensures Valid()
      ensures criticalMusicPlaying == (old(criticalMusicPlaying) && !musicLoaded)
      ensures musicLoaded == old(musicLoaded) && enemiesDetectingPlayer == old(enemiesDetectingPlayer)
    {
      if !musicLoaded {
        return;
      }
      if criticalMusicPlaying {
        criticalMusicPlaying := false;
      }
    }

    /** `enemyDetectedPlayer`: one more enemy sees the player; the critical theme plays. */
    method EnemyDetectedPlayer()
      requires Valid()
      modifies this
      ensures Valid()
      ensures musicLoaded == old(musicLoaded)
      ensures enemiesDetectingPlayer == AfterDetected(old(musicLoaded), old(enemiesDetectingPlayer))
      ensures criticalMusicPlaying == (old(criticalMusicPlaying) || musicLoaded)
    {
      if !musicLoaded {
        return;
      }
      enemiesDetectingPlayer := enemiesDetectingPlayer + 1;
      PlayCriticalTheme();
    }

    /** `enemyLostPlayer`: one enemy fewer sees the player; at none, the background track returns. */
    method EnemyLostPlayer()
      requires Valid()
      modifies this
      ensures Valid()
      ensures musicLoaded == old(musicLoaded)
      ensures enemiesDetectingPlayer == AfterLost(old(musicLoaded), old(enemiesDetectingPlayer))
      ensures criticalMusicPlaying == (old(criticalMusicPlaying) && !(musicLoaded && enemiesDetectingPlayer == 0))
    {
      if !musicLoaded {
        return;
      }
      enemiesDetectingPlayer := enemiesDetectingPlayer - 1;
      if enemiesDetectingPlayer < 0 {
        enemiesDetectingPlayer := 0;
      }
      if enemiesDetectingPlayer == 0 {
        PlayBackgroundMusic();
      }
    }
  }

  /** The count after a detection: one more, once the music is loaded. */
  function AfterDetected(loaded: bool, count: int): (c: int)
    ensures loaded ==> c == count + 1
    ensures !loaded ==> c == count
  {
    if loaded then count + 1 else count
  }

  /** The count after a loss: one fewer but never below zero, once the music is loaded. */
  function AfterLost(loaded: bool, count: int): (c: int)
    ensures c >= 0 || (!loaded && c == count)
    ensures loaded && count >= 1 ==> c == count - 1
    ensures loaded && count <= 1 ==> c == 0
    ensures !loaded ==> c == count
  {
    if !loaded then count else if count - 1 < 0 then 0 else count - 1
  }

  /**
   * The count after one enemy's frame, as `enemyMovement` signals it: a
   * detection when the enemy starts seeing the player; a loss when it stops,
   * but only when the count is at most 1.
   */
  function SignalAsWritten(loaded: bool, detecting: bool, canSee: bool, count: int): (c: int)
    ensures !loaded || detecting == canSee ==> c == count
    ensures count >= 0 ==> c >= 0
  {
    if !detecting && canSee then AfterDetected(loaded, count)
    else if detecting && !canSee && count <= 1 then AfterLost(loaded, count)
    else count
  }

  /** The signal as evidently intended: every enemy that stops seeing the player reports the loss. */
  function Signal(loaded: bool, detecting: bool, canSee: bool, count: int): (c: int)
    ensures !loaded || detecting == canSee ==> c == count
    ensures count >= 0 ==> c >= 0
    ensures loaded && count >= 1 ==> c == count + (if canSee then 1 else 0) - (if detecting then 1 else 0)
  {
    if !detecting && canSee then AfterDetected(loaded, count)
    else if detecting && !canSee then AfterLost(loaded, count)
    else count
  }

  /** How many enemies see the player. */
  function CountTrue(flags: seq<bool>): (n: nat)
    ensures n <= |flags|
  {
    if flags == [] then 0 else (if flags[0] then 1 else 0) + CountTrue(flags[1..])
  }

  lemma {:induction false} CountTrueUpdate(flags: seq<bool>, i: nat, b: bool)
    requires i < |flags|
    ensures CountTrue(flags[i := b]) == CountTrue(flags) - (if flags[i] then 1 else 0) + (if b then 1 else 0)
  {
    if i > 0 {
      CountTrueUpdate(flags[1..], i - 1, b);
      assert flags[i := b][1..] == flags[1..][i - 1 := b];
    }
  }

  /**
   * With the loss always reported, the loaded counter equals the number of
   * enemies that see the player, whichever enemy updates and whatever it sees.
   */
  lemma SignalKeepsCount(flags: seq<bool>, i: nat, canSee: bool, count: int)
    requires i < |flags| && count == CountTrue(flags)
    ensures Signal(true, flags[i], canSee, count) == CountTrue(flags[i := canSee])
  {
    CountTrueUpdate(flags, i, canSee);
  }

  /**
   * As written, two enemies that see the player and then both lose it leave
   * the count at 2, with no enemy seeing the player: the background track
   * never comes back through the counter.
   */
  lemma CountStuckAsWritten()
    ensures var c1 := SignalAsWritten(true, false, true, 0);
      var c2 := SignalAsWritten(true, false, true, c1);
      var c3 := SignalAsWritten(true, true, false, c2);
      var c4 := SignalAsWritten(true, true, false, c3);
      c2 == CountTrue([true, true]) && c4 == 2 && CountTrue([false, false]) == 0
  {
  }

  /** More generally, as written a loss reported while two or more enemies are counted changes nothing. */
  lemma LossIgnoredAsWritten(count: int)
    requires count >= 2
    ensures SignalAsWritten(true, true, false, count) == count
    ensures Signal(true, true, false, count) == count - 1
  {
  }
}
