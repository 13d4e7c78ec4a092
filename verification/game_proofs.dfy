/** Properties of the game that relate several operations: the state
    invariant every public operation keeps, the message-log bound, and the
    combat arithmetic of whole moves. */
module GameProofs {
  import opened Types
  import MapGen
  import Rng
  import opened Game

  /** A fresh floor built from a state in play with positive hit points
      within the maximum is valid. */
  lemma FreshFloorValid(g: State)
    requires g.status == Playing && g.player.maxHp == PLAYER_HP && 0 < g.player.hp <= g.player.maxHp
    requires g.floor >= 1 && |g.messages| <= LOG_SIZE
    ensures NewFloor(g).Success? ==> Valid(NewFloor(g).value)
  {
    NewFloorFresh(g);
  }

  /** A new game starts valid, in play. */
  lemma NewGameValid(seed: int)
    ensures NewGame(seed).Success? ==> Valid(NewGame(seed).value) && NewGame(seed).value.status == Playing
  {
    FreshFloorValid(Initial(seed));
  }

  /** A reset of a valid game is valid. */
  lemma ResetValid(g: State, seed: int)
    requires Valid(g)
    ensures Reset(g, seed).Success? ==> Valid(Reset(g, seed).value)
  {
    FreshFloorValid(Restarted(g, seed));
  }

  /** From a won floor, `nextFloor` is a new floor on the descending state
      followed by a descent entry. */
  lemma NextFloorUnfold(g: State)
    requires g.status == Won
    ensures NewFloor(Descending(g)).Failure? ==> NextFloor(g) == NewFloor(Descending(g))
    ensures NewFloor(Descending(g)).Success? ==>
      var s := NewFloor(Descending(g)).value;
      NextFloor(g) == Success(s.(messages := Log(s.messages, Descended(s.floor))))
  {
  }

  /** Descending from a won floor yields a valid floor in play. */
  lemma NextFloorValid(g: State)
    requires Valid(g)
    ensures NextFloor(g).Success? ==> Valid(NextFloor(g).value)
  {
    if g.status == Won {
      FreshFloorValid(Descending(g));
      NextFloorUnfold(g);
      var r := NewFloor(Descending(g));
      if r.Success? {
        LogKeepsValid(r.value, Descended(r.value.floor));
      }
    }
  }

  /** Logging `ms` one entry at a time leaves the newest entries first,
      followed by the old log, cut to five. */
  lemma {:induction false} LogKeepsNewest(messages: seq<Message>, ms: seq<Message>)
    requires |messages| <= LOG_SIZE
    ensures LogAll(messages, ms) == (Reverse(ms) + messages)[..Min(|ms| + |messages|, LOG_SIZE)]
    decreases |ms|
  {
    if |ms| == 0 {
      assert Reverse(ms) + messages == messages;
    } else {
      var init, m := ms[..|ms| - 1], ms[|ms| - 1];
      LogKeepsNewest(messages, init);
      var before := LogAll(messages, init);
      var all := Reverse(ms) + messages;
      assert Reverse(ms) == [m] + Reverse(init);
      assert |before| == Min(|init| + |messages|, LOG_SIZE);
      var r := Log(before, m);
      assert |r| == Min(|ms| + |messages|, LOG_SIZE);
      forall i | 0 <= i < |r|
        ensures r[i] == all[i]
      {
        if i > 0 {
          assert r[i] == before[i - 1];
          assert all[i] == (Reverse(init) + messages)[i - 1];
        }
      }
    }
  }

  /** After five or more entries the log holds exactly the last five,
      newest first. */
  lemma {:induction false} LogHoldsLastFive(messages: seq<Message>, ms: seq<Message>)
    requires |messages| <= LOG_SIZE && |ms| >= LOG_SIZE
    ensures LogAll(messages, ms) == Reverse(ms[|ms| - LOG_SIZE..])
  {
    LogKeepsNewest(messages, ms);
    assert (Reverse(ms) + messages)[..LOG_SIZE] == Reverse(ms)[..LOG_SIZE];
    ReverseSuffix(ms, LOG_SIZE);
  }

  /** The first n entries of a reversed sequence are its last n reversed. */
  lemma ReverseSuffix<T>(s: seq<T>, n: nat)
    requires n <= |s|
    ensures Reverse(s)[..n] == Reverse(s[|s| - n..])
  {
    var t := s[|s| - n..];
    forall i | 0 <= i < n
      ensures Reverse(s)[i] == Reverse(t)[i]
    {
      assert Reverse(t)[i] == t[n - 1 - i];
    }
  }

  /** A blow on an enemy at 4 hit points or fewer kills it; from 5 to 8 it
      survives with exactly 4 fewer. A fresh enemy at 8 therefore dies on the
      second blow. */
  lemma FreshEnemyDiesOnSecondHit(g: State, k: nat)
    requires Valid(g) && k < |g.enemies| && g.enemies[k].hp == ENEMY_HP
    ensures var a := Attack(g, k);
      && |a.enemies| == |g.enemies| && a.enemies[k].hp == ENEMY_HP - PLAYER_DAMAGE
      && |Attack(a, k).enemies| == |g.enemies| - 1
  {
    var a := Attack(g, k);
    assert UniqueIds(a.enemies) by {
      assert forall i :: 0 <= i < |a.enemies| ==> a.enemies[i].id == g.enemies[i].id;
    }
    RemoveIdUnique(a.enemies, k);
  }

  /** The blow that removes the last enemy wins the floor in the same move:
      the enemy turn runs over no one, so the player neither moves nor loses
      hit points. */
  lemma LastKillWins(g: State, dx: int, dy: int)
    requires Valid(g) && g.status == Playing && |g.enemies| == 1
    requires g.enemies[0].pos == Pos(g.player.pos.x + dx, g.player.pos.y + dy)
    requires g.enemies[0].hp <= PLAYER_DAMAGE
    ensures var r := AttemptMove(g, dx, dy);
      && r.status == Won && r.enemies == [] && r.player == g.player
  {
    var target := Pos(g.player.pos.x + dx, g.player.pos.y + dy);
    assert IsWalkable(g.dungeon.tiles, target.x, target.y);
    assert EnemyAt(g.enemies, target) == Some(0);
    var a := PlayerAct(g, target);
    assert a.enemies == RemoveId(g.enemies, g.enemies[0].id);
    assert a.enemies == [] by {
      RemoveIdUnique(g.enemies, 0);
    }
  }

  /** A step onto a free cell is followed by 2 damage per enemy next to the
      new cell, with no clamping: the run is lost iff the result is at or
      below zero. */
  lemma StepDamage(g: State, dx: int, dy: int)
    requires g.status == Playing
    requires IsWalkable(g.dungeon.tiles, g.player.pos.x + dx, g.player.pos.y + dy)
    requires EnemyAt(g.enemies, Pos(g.player.pos.x + dx, g.player.pos.y + dy)).None?
    ensures var r := AttemptMove(g, dx, dy);
      && r.player.pos == Pos(g.player.pos.x + dx, g.player.pos.y + dy)
      && r.player.hp == g.player.hp - ENEMY_DAMAGE * CountAdjacent(g.enemies, r.player.pos, 0)
      && (r.status == Lost <==> r.player.hp <= 0)
  {
    var a := PlayerAct(g, Pos(g.player.pos.x + dx, g.player.pos.y + dy));
    assert a.enemies == g.enemies;
  }

  /** A blow never moves the player, and the enemies then act against the
      player's unchanged cell. */
  lemma AttackDamage(g: State, dx: int, dy: int)
    requires g.status == Playing
    requires IsWalkable(g.dungeon.tiles, g.player.pos.x + dx, g.player.pos.y + dy)
    requires EnemyAt(g.enemies, Pos(g.player.pos.x + dx, g.player.pos.y + dy)).Some?
    ensures var k := EnemyAt(g.enemies, Pos(g.player.pos.x + dx, g.player.pos.y + dy)).value;
      var r := AttemptMove(g, dx, dy);
      && r.player.pos == g.player.pos
      && r.player.hp == g.player.hp - ENEMY_DAMAGE * CountAdjacent(Attack(g, k).enemies, g.player.pos, 0)
  {
    var target := Pos(g.player.pos.x + dx, g.player.pos.y + dy);
    var k := EnemyAt(g.enemies, target).value;
    var a := PlayerAct(g, target);
    assert a == Attack(g, k);
  }
}
