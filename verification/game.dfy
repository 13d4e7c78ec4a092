/** The turn-based game: a player and a list of enemies on a generated
    dungeon, a status, a floor counter and a five-entry message log. Each
    operation takes the whole state and returns the next one; the random
    generator travels inside the state. Floor setup can fail, and returns a
    `Failure` where the source throws. */
module Game {
  import opened Types
  import Rng
  import MapGen

  const WIDTH: int := 60
  const HEIGHT: int := 30
  const PLAYER_HP: int := 20
  const ENEMY_HP: int := 8
  /** Damage of one player blow and of one enemy blow. */
  const PLAYER_DAMAGE: int := 4
  const ENEMY_DAMAGE: int := 2
  /** Hit points restored when descending. */
  const HEAL: int := 5
  const LOG_SIZE: int := 5
  const PLACEMENT_TRIES: nat := 1000
  const MIN_ENEMIES: int := 5
  const MAX_ENEMIES: int := 10

  /** The order in which an enemy considers its neighbours: +x, -x, +y, -y. */
  const DIRECTIONS: seq<Pos> := [Pos(1, 0), Pos(-1, 0), Pos(0, 1), Pos(0, -1)]

  datatype State = State(
    player: Entity,
    enemies: seq<Enemy>,
    dungeon: MapGen.Dungeon,
    floor: int,
    status: Status,
    messages: seq<Message>,
    rng: Rng.Generator)

  // ---------------------------------------------------------------------
  // Message log

  /** `log`: the new entry first, then the newest old entries, five at most. */
  function Log(messages: seq<Message>, m: Message): (r: seq<Message>)
    ensures |r| == Min(|messages| + 1, LOG_SIZE)
    ensures r[0] == m
    ensures forall i :: 0 < i < |r| ==> r[i] == messages[i - 1]
  {
    var all := [m] + messages;
    if |all| > LOG_SIZE then all[..LOG_SIZE] else all
  }

  /** Below five entries nothing is cut. */
  lemma LogShort(messages: seq<Message>, m: Message)
    requires |messages| < LOG_SIZE
    ensures Log(messages, m) == [m] + messages
  {
    var r := Log(messages, m);
    assert forall i :: 0 < i < |r| ==> r[i] == ([m] + messages)[i];
  }

  /** Logs every entry of `ms`, in order. */
  function LogAll(messages: seq<Message>, ms: seq<Message>): seq<Message>
    decreases |ms|
  {
    if |ms| == 0 then messages else Log(LogAll(messages, ms[..|ms| - 1]), ms[|ms| - 1])
  }

  /** `s` last to first. */
  function Reverse<T>(s: seq<T>): (r: seq<T>)
    ensures |r| == |s|
    ensures forall i :: 0 <= i < |s| ==> r[i] == s[|s| - 1 - i]
  {
    seq(|s|, i requires 0 <= i < |s| => s[|s| - 1 - i])
  }

  // ---------------------------------------------------------------------
  // Grid queries

  /** `isWalkable`: inside the 60 x 30 board and a floor tile. */
  predicate IsWalkable(tiles: MapGen.Grid, x: int, y: int)
  {
    0 <= x < WIDTH && 0 <= y < HEIGHT && MapGen.IsFloor(tiles, x, y)
  }

  /** `isAdjacent`: Manhattan distance exactly one. */
  predicate IsAdjacent(a: Pos, b: Pos)
  {
    Dist(a, b) == 1
  }

  /** `enemyAt`: the index of the first enemy standing on `p`, if any. */
  function EnemyAt(enemies: seq<Enemy>, p: Pos): (r: Option<nat>)
    ensures r.None? <==> forall k :: 0 <= k < |enemies| ==> enemies[k].pos != p
    ensures r.Some? ==> r.value < |enemies| && enemies[r.value].pos == p
    ensures r.Some? ==> forall k :: 0 <= k < r.value ==> enemies[k].pos != p
    decreases |enemies|
  {
    if |enemies| == 0 then None
    else if enemies[0].pos == p then Some(0)
    else match EnemyAt(enemies[1..], p)
      case None => None
      case Some(k) => Some(k + 1)
  }

  ghost predicate UniqueIds(enemies: seq<Enemy>)
  {
    forall i, j {:trigger enemies[i].id, enemies[j].id} :: 0 <= i < j < |enemies| ==> enemies[i].id != enemies[j].id
  }

  /** `enemies.filter((e) => e.id !== id)`. */
  function RemoveId(enemies: seq<Enemy>, id: int): (r: seq<Enemy>)
    ensures |r| <= |enemies|
    decreases |enemies|
  {
    if |enemies| == 0 then []
    else (if enemies[0].id == id then [] else [enemies[0]]) + RemoveId(enemies[1..], id)
  }

  /** The survivors of the filter are exactly the enemies whose id differs. */
  lemma {:induction false} RemoveIdMembers(enemies: seq<Enemy>, id: int)
    ensures forall e :: e in RemoveId(enemies, id) <==> e in enemies && e.id != id
    decreases |enemies|
  {
    if |enemies| > 0 {
      RemoveIdMembers(enemies[1..], id);
      assert enemies == [enemies[0]] + enemies[1..];
    }
  }

  /** With unique ids, filtering out the id of enemy `k` removes exactly that
      entry and keeps the others in order. */
  lemma {:induction false} RemoveIdUnique(enemies: seq<Enemy>, k: nat)
    requires k < |enemies| && UniqueIds(enemies)
    ensures RemoveId(enemies, enemies[k].id) == enemies[..k] + enemies[k + 1..]
    decreases |enemies|
  {
    var id := enemies[k].id;
    if k == 0 {
      NoIdRemoved(enemies[1..], id);
    } else {
      var tail := enemies[1..];
      assert UniqueIds(tail);
      assert tail[k - 1] == enemies[k];
      RemoveIdUnique(tail, k - 1);
      assert enemies[0].id != id;
      assert RemoveId(enemies, id) == [enemies[0]] + (tail[..k - 1] + tail[k..]);
      assert enemies[..k] == [enemies[0]] + tail[..k - 1];
      assert tail[k..] == enemies[k + 1..];
    }
  }

  /** Filtering an id that no entry carries changes nothing. */
  lemma {:induction false} NoIdRemoved(enemies: seq<Enemy>, id: int)
    requires forall i :: 0 <= i < |enemies| ==> enemies[i].id != id
    ensures RemoveId(enemies, id) == enemies
    decreases |enemies|
  {
    if |enemies| > 0 {
      NoIdRemoved(enemies[1..], id);
      assert [enemies[0]] + enemies[1..] == enemies;
    }
  }

  // ---------------------------------------------------------------------
  // Greedy pursuit

  /** The cell one step from `p` in direction `k`. */
  function Neighbour(p: Pos, k: nat): (r: Pos)
    requires k < |DIRECTIONS|
    ensures IsAdjacent(r, p)
  {
    var r := Pos(p.x + DIRECTIONS[k].x, p.y + DIRECTIONS[k].y);
    assert k == 0 || k == 1 || k == 2 || k == 3;
    r
  }

  /** Direction `b` (among the first `k`) is legal, no legal direction among
      the first `k` is strictly nearer to `to`, and every legal direction
      before `b` is strictly farther: `b` is the first nearest. */
  ghost predicate FirstNearest(from: Pos, to: Pos, canMove: Pos -> bool, b: nat, k: nat)
    requires b < k <= |DIRECTIONS|
  {
    && canMove(Neighbour(from, b))
    && (forall j :: 0 <= j < k && canMove(Neighbour(from, j)) ==>
          Dist(Neighbour(from, b), to) <= Dist(Neighbour(from, j), to))
    && (forall j :: 0 <= j < b && canMove(Neighbour(from, j)) ==>
          Dist(Neighbour(from, j), to) > Dist(Neighbour(from, b), to))
  }

  /** The loop of `bestStep` from direction `k`, with `best` the direction
      chosen so far; a candidate replaces it only when strictly nearer. */
  function BestFrom(from: Pos, to: Pos, canMove: Pos -> bool, k: nat, best: Option<nat>): (r: Option<nat>)
    requires k <= |DIRECTIONS|
    requires best.Some? ==> best.value < k && FirstNearest(from, to, canMove, best.value, k)
    requires best.None? ==> forall j :: 0 <= j < k ==> !canMove(Neighbour(from, j))
    ensures r.Some? ==> r.value < |DIRECTIONS| && FirstNearest(from, to, canMove, r.value, |DIRECTIONS|)
    ensures r.None? ==> forall j :: 0 <= j < |DIRECTIONS| ==> !canMove(Neighbour(from, j))
    decreases |DIRECTIONS| - k
  {
    if k == |DIRECTIONS| then best
    else
      var n := Neighbour(from, k);
      if !canMove(n) then
        if best.Some? then KeepNearest(from, to, canMove, best.value, k); BestFrom(from, to, canMove, k + 1, best)
        else BestFrom(from, to, canMove, k + 1, best)
      else if best.None? || Dist(n, to) < Dist(Neighbour(from, best.value), to) then
        TakeNearest(from, to, canMove, best, k);
        BestFrom(from, to, canMove, k + 1, Some(k))
      else
        KeepNearest(from, to, canMove, best.value, k);
        BestFrom(from, to, canMove, k + 1, best)
  }

  /** A candidate that is illegal or no nearer keeps the choice. */
  lemma KeepNearest(from: Pos, to: Pos, canMove: Pos -> bool, b: nat, k: nat)
    requires b < k < |DIRECTIONS| && FirstNearest(from, to, canMove, b, k)
    requires canMove(Neighbour(from, k)) ==> Dist(Neighbour(from, b), to) <= Dist(Neighbour(from, k), to)
    ensures FirstNearest(from, to, canMove, b, k + 1)
  {
  }

  /** A legal candidate strictly nearer than the choice so far, or the first
      legal one, becomes the choice. */
  lemma TakeNearest(from: Pos, to: Pos, canMove: Pos -> bool, best: Option<nat>, k: nat)
    requires k < |DIRECTIONS| && canMove(Neighbour(from, k))
    requires best.Some? ==>
      (best.value < k && FirstNearest(from, to, canMove, best.value, k)
       && Dist(Neighbour(from, k), to) < Dist(Neighbour(from, best.value), to))
    requires best.None? ==> forall j :: 0 <= j < k ==> !canMove(Neighbour(from, j))
    ensures FirstNearest(from, to, canMove, k, k + 1)
  {
  }

  /** The direction `bestStep` takes: none iff no neighbour is legal,
      otherwise the first legal neighbour, in +x, -x, +y, -y order, at
      minimal Manhattan distance from `to` among the legal ones. That
      neighbour may be farther from `to` than `from` is. */
  function BestDirection(from: Pos, to: Pos, canMove: Pos -> bool): (r: Option<nat>)
    ensures r.None? <==> forall j :: 0 <= j < |DIRECTIONS| ==> !canMove(Neighbour(from, j))
    ensures r.Some? ==> r.value < |DIRECTIONS| && FirstNearest(from, to, canMove, r.value, |DIRECTIONS|)
  {
    BestFrom(from, to, canMove, 0, None)
  }

  /** `bestStep`: the neighbour in the direction `BestDirection` picks. */
  function BestStep(from: Pos, to: Pos, canMove: Pos -> bool): (r: Option<Pos>)
    ensures r.None? <==> forall j :: 0 <= j < |DIRECTIONS| ==> !canMove(Neighbour(from, j))
    ensures r.Some? ==> canMove(r.value) && IsAdjacent(r.value, from)
    ensures r.Some? ==> forall j :: 0 <= j < |DIRECTIONS| && canMove(Neighbour(from, j)) ==>
      Dist(r.value, to) <= Dist(Neighbour(from, j), to)
  {
    match BestDirection(from, to, canMove)
    case None => None
    case Some(k) => Some(Neighbour(from, k))
  }

  // ---------------------------------------------------------------------
  // Enemy turn

  /** `canEnemyMoveTo`: walkable, not the player's cell, and not the cell of
      an enemy with another id, judged on the live positions. */
  predicate CanEnemyMoveTo(g: State, id: int, p: Pos)
  {
    && IsWalkable(g.dungeon.tiles, p.x, p.y)
    && p != g.player.pos
    && !(exists k :: 0 <= k < |g.enemies| && g.enemies[k].id != id && g.enemies[k].pos == p)
  }

  /** The test `enemyTurn` hands to `bestStep` for the enemy `id`. */
  function MoveTest(g: State, id: int): Pos -> bool
  {
    p => CanEnemyMoveTo(g, id, p)
  }

  /** How many of the enemies from index `i` on stand next to `p`. */
  function CountAdjacent(enemies: seq<Enemy>, p: Pos, i: nat): nat
    requires i <= |enemies|
    decreases |enemies| - i
  {
    if i == |enemies| then 0
    else (if IsAdjacent(enemies[i].pos, p) then 1 else 0) + CountAdjacent(enemies, p, i + 1)
  }

  /** The count only looks at positions from index `i` on. */
  lemma {:induction false} CountAdjacentFrame(a: seq<Enemy>, b: seq<Enemy>, p: Pos, i: nat)
    requires i <= |a| == |b|
    requires forall k :: i <= k < |a| ==> a[k].pos == b[k].pos
    ensures CountAdjacent(a, p, i) == CountAdjacent(b, p, i)
    decreases |a| - i
  {
    if i < |a| {
      CountAdjacentFrame(a, b, p, i + 1);
    }
  }

  /** The player and every enemy stand on walkable cells, no two on the same
      cell, and enemy ids are unique. */
  ghost predicate Occupancy(g: State)
  {
    && IsWalkable(g.dungeon.tiles, g.player.pos.x, g.player.pos.y)
    && (forall k :: 0 <= k < |g.enemies| ==>
          IsWalkable(g.dungeon.tiles, g.enemies[k].pos.x, g.enemies[k].pos.y) && g.enemies[k].pos != g.player.pos)
    && (forall i, j {:trigger g.enemies[i].pos, g.enemies[j].pos} :: 0 <= i < j < |g.enemies| ==> g.enemies[i].pos != g.enemies[j].pos)
    && UniqueIds(g.enemies)
  }

  /** One enemy's action: hit an adjacent player for 2, otherwise take the
      greedy step if there is one. */
  function EnemyAct(g: State, i: nat): (r: State)
    requires i < |g.enemies|
    ensures r.player.pos == g.player.pos && r.player.maxHp == g.player.maxHp
    ensures r.dungeon == g.dungeon && r.floor == g.floor && r.status == g.status && r.rng == g.rng
    ensures |r.enemies| == |g.enemies|
    ensures forall k :: 0 <= k < |g.enemies| && k != i ==> r.enemies[k] == g.enemies[k]
    ensures r.enemies[i].id == g.enemies[i].id && r.enemies[i].hp == g.enemies[i].hp
    ensures r.enemies[i].maxHp == g.enemies[i].maxHp
    ensures IsAdjacent(g.enemies[i].pos, g.player.pos) ==>
      r.enemies[i] == g.enemies[i] && r.player.hp == g.player.hp - ENEMY_DAMAGE
    ensures !IsAdjacent(g.enemies[i].pos, g.player.pos) ==>
      && r.player.hp == g.player.hp
      && (r.enemies[i] == g.enemies[i] ||
          (IsAdjacent(r.enemies[i].pos, g.enemies[i].pos) && CanEnemyMoveTo(g, g.enemies[i].id, r.enemies[i].pos)))
    ensures !IsAdjacent(g.enemies[i].pos, g.player.pos) ==>
      var d := BestDirection(g.enemies[i].pos, g.player.pos, MoveTest(g, g.enemies[i].id));
      && (d.None? ==> r.enemies[i] == g.enemies[i])
      && (d.Some? ==> r.enemies[i] == g.enemies[i].(pos := Neighbour(g.enemies[i].pos, d.value)))
    ensures |g.messages| <= LOG_SIZE ==> |r.messages| <= LOG_SIZE
  {
    var e := g.enemies[i];
    if IsAdjacent(e.pos, g.player.pos) then
      g.(player := g.player.(hp := g.player.hp - ENEMY_DAMAGE), messages := Log(g.messages, EnemyHits(e.id)))
    else
      match BestStep(e.pos, g.player.pos, MoveTest(g, e.id))
      case None => g
      case Some(p) => g.(enemies := g.enemies[i := e.(pos := p)])
  }

  /** A step onto a cell no other enemy and not the player holds keeps
      everyone apart. */
  lemma EnemyActOccupancy(g: State, i: nat)
    requires i < |g.enemies|
    ensures Occupancy(g) ==> Occupancy(EnemyAct(g, i))
  {
    if !Occupancy(g) { return; }
    var r := EnemyAct(g, i);
    var e := g.enemies[i];
    if r.enemies[i] != e {
      var p := r.enemies[i].pos;
      assert CanEnemyMoveTo(g, e.id, p);
      forall j | 0 <= j < |g.enemies| && j != i
        ensures g.enemies[j].pos != p
      {
        assert g.enemies[j].id != e.id;
      }
      assert UniqueIds(r.enemies);
    }
  }

  /** How the enemy list after a turn from index `i` on relates to the one
      before: the entries before `i` are untouched; every later enemy keeps
      its id and hit points; one adjacent to the player stays put; any other
      stays or has stepped to a neighbouring walkable cell off the player. */
  ghost predicate Follows(g: State, r: State, i: nat)
  {
    && |r.enemies| == |g.enemies| && i <= |g.enemies|
    && (forall k :: 0 <= k < i ==> r.enemies[k] == g.enemies[k])
    && (forall k :: i <= k < |g.enemies| ==>
          && r.enemies[k].id == g.enemies[k].id && r.enemies[k].hp == g.enemies[k].hp
          && r.enemies[k].maxHp == g.enemies[k].maxHp)
    && (forall k :: i <= k < |g.enemies| && IsAdjacent(g.enemies[k].pos, g.player.pos) ==>
          r.enemies[k].pos == g.enemies[k].pos)
    && (forall k :: i <= k < |g.enemies| ==>
          || r.enemies[k].pos == g.enemies[k].pos
          || (&& IsAdjacent(r.enemies[k].pos, g.enemies[k].pos)
              && IsWalkable(g.dungeon.tiles, r.enemies[k].pos.x, r.enemies[k].pos.y)
              && r.enemies[k].pos != g.player.pos))
  }

  /** Enemy `i`'s action followed by the turn from `i + 1` on is the turn
      from `i` on. */
  lemma FollowsStep(g: State, r: State, i: nat)
    requires i < |g.enemies|
    requires Follows(EnemyAct(g, i), r, i + 1)
    ensures Follows(g, r, i)
  {
  }

  /** The enemy turn from index `i` on: each enemy acts in array order
      against the positions as they stand when its turn comes. */
  function EnemyTurnFrom(g: State, i: nat): (r: State)
    requires i <= |g.enemies|
    ensures r.player.pos == g.player.pos && r.player.maxHp == g.player.maxHp
    ensures r.player.hp == g.player.hp - ENEMY_DAMAGE * CountAdjacent(g.enemies, g.player.pos, i)
    ensures r.dungeon == g.dungeon && r.floor == g.floor && r.status == g.status && r.rng == g.rng
    ensures Follows(g, r, i)
    ensures Occupancy(g) ==> Occupancy(r)
    ensures |g.messages| <= LOG_SIZE ==> |r.messages| <= LOG_SIZE
    decreases |g.enemies| - i
  {
    if i == |g.enemies| then g
    else
      var g' := EnemyAct(g, i);
      EnemyActOccupancy(g, i);
      CountAdjacentFrame(g.enemies, g'.enemies, g.player.pos, i + 1);
      var r := EnemyTurnFrom(g', i + 1);
      FollowsStep(g, r, i);
      r
  }

  /** `enemyTurn`: every enemy adjacent to the player hits it for exactly 2
      and stays put; every other enemy stays or moves one cardinal step onto
      a walkable cell off the player; nothing else changes. */
  function EnemyTurn(g: State): (r: State)
    ensures r.player.pos == g.player.pos
    ensures r.player.hp == g.player.hp - ENEMY_DAMAGE * CountAdjacent(g.enemies, g.player.pos, 0)
    ensures r.dungeon == g.dungeon && r.floor == g.floor && r.status == g.status && r.rng == g.rng
    ensures |r.enemies| == |g.enemies|
    ensures r.player.maxHp == g.player.maxHp
    ensures Follows(g, r, 0)
    ensures Occupancy(g) ==> Occupancy(r)
    ensures |g.messages| <= LOG_SIZE ==> |r.messages| <= LOG_SIZE
  {
    EnemyTurnFrom(g, 0)
  }

  /** The state after enemies `i .. k - 1` have acted, in list order: the
      positions enemy `k` sees when its own action comes. */
  function ActFrom(g: State, i: nat, k: nat): (r: State)
    requires i <= k <= |g.enemies|
    ensures |r.enemies| == |g.enemies| && r.player.pos == g.player.pos
    ensures forall j :: k <= j < |g.enemies| ==> r.enemies[j] == g.enemies[j]
    decreases k - i
  {
    if i == k then g else ActFrom(EnemyAct(g, i), i + 1, k)
  }

  /** Enemy `k` ends the turn from `i` where its own action put it, taken
      on the state the enemies before it left. */
  lemma {:induction false} TurnFromActs(g: State, i: nat, k: nat)
    requires i <= k < |g.enemies|
    ensures EnemyTurnFrom(g, i).enemies[k] == EnemyAct(ActFrom(g, i, k), k).enemies[k]
    decreases k - i
  {
    if i < k {
      TurnFromActs(EnemyAct(g, i), i + 1, k);
    }
  }

  /** The greedy pursuit of a whole turn. Enemy `k`, with the positions the
      enemies before it left (`ActFrom(g, 0, k)`), stays put when next to
      the player; otherwise it takes the first nearest free neighbour, in
      +x, -x, +y, -y order, and it stays only when none of its four
      neighbours is free at its turn. */
  lemma EnemyTurnGreedy(g: State, k: nat)
    requires k < |g.enemies|
    ensures var s, e, r := ActFrom(g, 0, k), g.enemies[k], EnemyTurn(g);
      var d := BestDirection(e.pos, g.player.pos, MoveTest(s, e.id));
      && (IsAdjacent(e.pos, g.player.pos) ==> r.enemies[k] == e)
      && (!IsAdjacent(e.pos, g.player.pos) && d.None? ==> r.enemies[k] == e)
      && (!IsAdjacent(e.pos, g.player.pos) && d.Some? ==>
            r.enemies[k] == e.(pos := Neighbour(e.pos, d.value)))
      && (!IsAdjacent(e.pos, g.player.pos) ==>
            (r.enemies[k] == e <==>
               forall j :: 0 <= j < |DIRECTIONS| ==> !CanEnemyMoveTo(s, e.id, Neighbour(e.pos, j))))
  {
    var s, e := ActFrom(g, 0, k), g.enemies[k];
    TurnFromActs(g, 0, k);
    assert s.enemies[k] == e && s.player.pos == g.player.pos;
    var a := EnemyAct(s, k);
    assert EnemyTurn(g).enemies[k] == a.enemies[k];
  }

  // ---------------------------------------------------------------------
  // Player move

  /** A melee blow on enemy `k`: it loses 4 hit points; at 0 or below it is
      filtered out by id, and if none remain the floor is won. The player
      does not move. */
  function Attack(g: State, k: nat): (r: State)
    requires k < |g.enemies|
    ensures r.player == g.player && r.dungeon == g.dungeon && r.floor == g.floor && r.rng == g.rng
    ensures g.enemies[k].hp > PLAYER_DAMAGE ==>
      && r.enemies == g.enemies[k := g.enemies[k].(hp := g.enemies[k].hp - PLAYER_DAMAGE)]
      && r.status == g.status
    ensures g.enemies[k].hp <= PLAYER_DAMAGE ==>
      && r.enemies == RemoveId(g.enemies, g.enemies[k].id)
      && r.status == (if |r.enemies| == 0 then Won else g.status)
    ensures |g.messages| <= LOG_SIZE ==> |r.messages| <= LOG_SIZE
  {
    var e := g.enemies[k];
    var hit := e.(hp := e.hp - PLAYER_DAMAGE);
    var g1 := g.(enemies := g.enemies[k := hit], messages := Log(g.messages, PlayerHits(e.id)));
    if hit.hp > 0 then g1
    else
      var g2 := g1.(enemies := RemoveId(g1.enemies, hit.id), messages := Log(g1.messages, EnemyDies(e.id)));
      assert g2.enemies == RemoveId(g.enemies, e.id) by {
        RemoveIdByMembers(g1.enemies, g.enemies, k, e.id);
      }
      if |g2.enemies| == 0 then g2.(status := Won, messages := Log(g2.messages, AllDefeated)) else g2
  }

  /** Two lists that differ only at one entry carrying the filtered id give
      the same filtered list. */
  lemma {:induction false} RemoveIdByMembers(a: seq<Enemy>, b: seq<Enemy>, k: nat, id: int)
    requires |a| == |b| && k < |a|
    requires a[k].id == id && b[k].id == id
    requires forall i :: 0 <= i < |a| && i != k ==> a[i] == b[i]
    ensures RemoveId(a, id) == RemoveId(b, id)
    decreases |a|
  {
    if k == 0 {
      assert a[1..] == b[1..];
    } else {
      RemoveIdByMembers(a[1..], b[1..], k - 1, id);
    }
  }

  /** The player's half of a move onto the walkable cell `target`: attack the
      first enemy standing there, or step onto it. */
  function PlayerAct(g: State, target: Pos): (r: State)
    ensures r.dungeon == g.dungeon && r.floor == g.floor && r.rng == g.rng
    ensures r.status == g.status || r.status == Won
    ensures r.player.hp == g.player.hp && r.player.maxHp == g.player.maxHp
    ensures EnemyAt(g.enemies, target).None? ==>
      r == g.(player := g.player.(pos := target))
    ensures EnemyAt(g.enemies, target).Some? ==>
      r.player.pos == g.player.pos && r == Attack(g, EnemyAt(g.enemies, target).value)
  {
    match EnemyAt(g.enemies, target)
    case Some(k) => Attack(g, k)
    case None => g.(player := g.player.(pos := target))
  }

  /** `updateStatus`: at 0 hit points or fewer the run is lost. Hit points
      are not clamped. */
  function UpdateStatus(g: State): (r: State)
    ensures r.player == g.player && r.enemies == g.enemies && r.dungeon == g.dungeon
    ensures r.floor == g.floor && r.rng == g.rng
    ensures r.status == (if g.player.hp <= 0 then Lost else g.status)
    ensures |g.messages| <= LOG_SIZE ==> |r.messages| <= LOG_SIZE
  {
    if g.player.hp <= 0 then g.(status := Lost, messages := Log(g.messages, GameOver)) else g
  }

  /** What every move keeps: the dungeon, the floor and the generator, the
      occupancy invariant, and the five-entry bound on the log. */
  ghost predicate MoveKeeps(g: State, r: State)
  {
    && r.dungeon == g.dungeon && r.floor == g.floor && r.rng == g.rng
    && (Occupancy(g) ==> Occupancy(r))
    && (|g.messages| <= LOG_SIZE ==> |r.messages| <= LOG_SIZE)
  }

  /** `attemptMove(dx, dy)`. Outside `Playing` nothing happens and nothing is
      logged. A move into a wall or off the board only logs a bump and costs
      no turn. Otherwise the move is one turn. Every move keeps a valid
      state valid. */
  function AttemptMove(g: State, dx: int, dy: int): (r: State)
    ensures g.status != Playing ==> r == g
    ensures g.status == Playing && !IsWalkable(g.dungeon.tiles, g.player.pos.x + dx, g.player.pos.y + dy) ==>
      r == g.(messages := Log(g.messages, BumpedWall))
    ensures g.status == Playing && IsWalkable(g.dungeon.tiles, g.player.pos.x + dx, g.player.pos.y + dy) ==>
      r == TakeTurn(g, dx, dy)
    ensures MoveKeeps(g, r)
    ensures Valid(g) ==> Valid(r)
  {
    if g.status != Playing then g
    else if !IsWalkable(g.dungeon.tiles, g.player.pos.x + dx, g.player.pos.y + dy) then
      LogKeepsValid(g, BumpedWall);
      g.(messages := Log(g.messages, BumpedWall))
    else TakeTurn(g, dx, dy)
  }

  /** One turn after a move onto a walkable cell: the player steps or
      strikes, then every enemy acts against the player's new cell; the
      player loses 2 hit points per enemy adjacent to that cell after the
      player's half, and the run is lost iff the player's hit points ended at
      0 or below. */
  function TakeTurn(g: State, dx: int, dy: int): (r: State)
    requires g.status == Playing && IsWalkable(g.dungeon.tiles, g.player.pos.x + dx, g.player.pos.y + dy)
    ensures var a := PlayerAct(g, Pos(g.player.pos.x + dx, g.player.pos.y + dy));
      && r.player.pos == a.player.pos && r.player.maxHp == g.player.maxHp
      && r.player.hp == g.player.hp - ENEMY_DAMAGE * CountAdjacent(a.enemies, a.player.pos, 0)
      && r.status == (if r.player.hp <= 0 then Lost else a.status)
      && |r.enemies| == |a.enemies|
    ensures MoveKeeps(g, r)
    ensures Valid(g) ==> Valid(r)
  {
    var target := Pos(g.player.pos.x + dx, g.player.pos.y + dy);
    var acted := PlayerAct(g, target);
    PlayerActOccupancy(g, target);
    PlayerActReady(g, target);
    TurnKeepsValid(acted);
    UpdateStatus(EnemyTurn(acted))
  }

  // ---------------------------------------------------------------------
  // State invariant

  /** What holds of every state the public operations hand out: the dungeon
      is 60 x 30 with a faithful floor list, everyone stands apart on
      walkable cells, the player's hit points are at most 20 and at or below
      zero exactly when the run is lost, a won floor has no enemies and a
      floor in play has some, live enemies have 1..8 hit points, and the log
      holds at most five entries. */
  ghost predicate Valid(g: State)
  {
    && MapGen.Consistent(g.dungeon) && g.dungeon.width == WIDTH && g.dungeon.height == HEIGHT
    && Occupancy(g)
    && g.player.maxHp == PLAYER_HP && g.player.hp <= g.player.maxHp
    && (g.status == Lost <==> g.player.hp <= 0)
    && (g.status == Won ==> |g.enemies| == 0)
    && (g.status == Playing ==> |g.enemies| > 0)
    && HealthyEnemies(g.enemies)
    && |g.messages| <= LOG_SIZE
    && g.floor >= 1
  }

  /** One more log entry keeps a state valid. */
  lemma LogKeepsValid(g: State, m: Message)
    ensures Valid(g) ==> Valid(g.(messages := Log(g.messages, m)))
  {
    if !Valid(g) { return; }
    assert Occupancy(g.(messages := Log(g.messages, m)));
  }

  /** Live enemies have 1..8 hit points. */
  ghost predicate HealthyEnemies(enemies: seq<Enemy>)
  {
    forall i :: 0 <= i < |enemies| ==> 0 < enemies[i].hp <= enemies[i].maxHp && enemies[i].maxHp == ENEMY_HP
  }

  /** What the enemies' half of a move needs from the player's half: a valid
      dungeon, everyone apart, the player alive at or below 20, the floor won
      exactly when no enemy is left, live enemies at 1..8. */
  ghost predicate TurnReady(a: State)
  {
    && MapGen.Consistent(a.dungeon) && a.dungeon.width == WIDTH && a.dungeon.height == HEIGHT
    && Occupancy(a) && a.floor >= 1
    && a.player.maxHp == PLAYER_HP && 0 < a.player.hp <= a.player.maxHp
    && (a.status == Won || a.status == Playing)
    && (a.status == Won <==> |a.enemies| == 0)
    && HealthyEnemies(a.enemies) && |a.messages| <= LOG_SIZE
  }

  /** A blow from a state in play wins exactly when it removes the last
      enemy, and the survivors keep 1..8 hit points. */
  lemma AttackKeepsCounts(g: State, k: nat)
    requires g.status == Playing && k < |g.enemies|
    requires UniqueIds(g.enemies) && HealthyEnemies(g.enemies)
    ensures var a := Attack(g, k);
      && (a.status == Won <==> |a.enemies| == 0)
      && (a.status == Won || a.status == Playing)
      && HealthyEnemies(a.enemies)
  {
    var e := g.enemies[k];
    var a := Attack(g, k);
    if e.hp > PLAYER_DAMAGE {
      assert a.enemies == g.enemies[k := e.(hp := e.hp - PLAYER_DAMAGE)];
      assert a.status == Playing;
    } else {
      RemoveIdUnique(g.enemies, k);
      var rest := g.enemies[..k] + g.enemies[k + 1..];
      assert a.enemies == rest;
      assert forall i :: 0 <= i < |rest| ==> rest[i] == g.enemies[if i < k then i else i + 1];
    }
  }

  /** The player's half of a move from a valid state in play onto a walkable
      cell leaves the state the enemy turn needs: a step keeps the status and
      the enemies; a blow leaves the floor won exactly when it removed the
      last enemy; either way live enemies keep 1..8 hit points. */
  lemma PlayerActReady(g: State, target: Pos)
    requires g.status == Playing && IsWalkable(g.dungeon.tiles, target.x, target.y)
    ensures Valid(g) ==> TurnReady(PlayerAct(g, target))
  {
    if !Valid(g) { return; }
    PlayerActOccupancy(g, target);
    match EnemyAt(g.enemies, target)
    case None =>
    case Some(k) =>
      AttackKeepsCounts(g, k);
  }

  /** The enemies' half of a move, followed by the status update, turns a
      ready state into a valid one. */
  lemma TurnKeepsValid(a: State)
    ensures TurnReady(a) ==> Valid(UpdateStatus(EnemyTurn(a)))
  {
    if !TurnReady(a) { return; }
    var t := EnemyTurn(a);
    assert t.player.hp <= a.player.hp;
  }

  /** The player's half of a move keeps everyone on distinct walkable cells. */
  lemma PlayerActOccupancy(g: State, target: Pos)
    requires IsWalkable(g.dungeon.tiles, target.x, target.y)
    ensures Occupancy(g) ==> Occupancy(PlayerAct(g, target))
  {
    match EnemyAt(g.enemies, target)
    case None =>
    case Some(k) => AttackOccupancy(g, k);
  }

  /** A blow changes one enemy's hit points or removes it; positions and ids
      of the rest are untouched. */
  lemma AttackOccupancy(g: State, k: nat)
    requires k < |g.enemies|
    ensures Occupancy(g) ==> Occupancy(Attack(g, k))
  {
    if !Occupancy(g) { return; }
    var e := g.enemies[k];
    if e.hp - PLAYER_DAMAGE > 0 {
      var es := Attack(g, k).enemies;
      assert forall i :: 0 <= i < |es| ==> es[i].pos == g.enemies[i].pos && es[i].id == g.enemies[i].id;
    } else {
      RemoveIdUnique(g.enemies, k);
      DropOccupancy(g, k);
    }
  }

  /** Dropping enemy `k` keeps everyone apart. */
  lemma DropOccupancy(g: State, k: nat)
    requires k < |g.enemies| && Occupancy(g)
    ensures Occupancy(g.(enemies := g.enemies[..k] + g.enemies[k + 1..]))
  {
    var rest := g.enemies[..k] + g.enemies[k + 1..];
    assert forall i :: 0 <= i < |rest| ==> rest[i] == g.enemies[if i < k then i else i + 1];
  }

  // ---------------------------------------------------------------------
  // Floor setup

  /** The tile a pick lands on when the generator's state has just become `s`. */
  function Draw(floors: seq<Pos>, s: Rng.Word): Pos
    requires |floors| > 0
  {
    Rng.ScaledIndexBound(s, |floors|);
    floors[(s * |floors|) / Rng.MODULUS]
  }

  /** An open tile, the generator after the last pick, and how many picks it
      took (the source does not return the count). */
  datatype Found = Found(tile: Pos, rng: Rng.Generator, draws: nat)

  /** `findOpenTile` from try `tries`: picks until a tile outside `used` comes
      up, failing once 1000 picks in all have landed in `used`. */
  function FindOpenTile(floors: seq<Pos>, used: set<Pos>, rng: Rng.Generator, tries: nat): (r: Result<Found>)
    requires |floors| > 0 && tries <= PLACEMENT_TRIES
    ensures r.Failure? ==> r.error == NoOpenTile
    ensures r.Failure? ==> forall n :: 1 <= n <= PLACEMENT_TRIES - tries ==>
      Draw(floors, Rng.Advance(rng.state, n)) in used
    ensures r.Success? ==>
      && 1 <= r.value.draws <= PLACEMENT_TRIES - tries
      && r.value.rng.state == Rng.Advance(rng.state, r.value.draws)
      && r.value.tile == Draw(floors, r.value.rng.state)
      && r.value.tile in floors && r.value.tile !in used
      && forall n :: 1 <= n < r.value.draws ==> Draw(floors, Rng.Advance(rng.state, n)) in used
    decreases PLACEMENT_TRIES - tries
  {
    if tries == PLACEMENT_TRIES then Failure(NoOpenTile)
    else
      var (p, rng') := Rng.Pick(rng, floors);
      assert p == Draw(floors, rng'.state);
      if p !in used then Success(Found(p, rng', 1))
      else match FindOpenTile(floors, used, rng', tries + 1)
        case Failure(e) => AdvanceShift(rng.state); Failure(e)
        case Success(f) => AdvanceShift(rng.state); Success(f.(draws := f.draws + 1))
  }

  /** n + 1 steps from `s` are n steps from the state after one. */
  lemma AdvanceShift(s: Rng.Word)
    ensures forall n: nat :: Rng.Advance(s, n + 1) == Rng.Advance(Rng.Step(s), n)
  {
  }

  /** The placement loop of `newFloor` from enemy `i`: each enemy gets id
      i + 1, full hit points and an open tile, which then counts as used. */
  function PlaceEnemies(floors: seq<Pos>, used: set<Pos>, rng: Rng.Generator, i: nat, count: int)
    : (r: Result<(seq<Enemy>, Rng.Generator)>)
    requires |floors| > 0
    ensures r.Failure? ==> r.error == NoOpenTile
    ensures r.Success? ==> var es := r.value.0;
      && |es| == (if i <= count then count - i else 0)
      && (forall k :: 0 <= k < |es| ==>
            && es[k].id == i + k + 1 && es[k].hp == ENEMY_HP && es[k].maxHp == ENEMY_HP
            && es[k].pos in floors && es[k].pos !in used)
      && (forall j, k :: 0 <= j < k < |es| ==> es[j].pos != es[k].pos)
    decreases count - i
  {
    if i >= count then Success(([], rng))
    else match FindOpenTile(floors, used, rng, 0)
      case Failure(e) => Failure(e)
      case Success(f) =>
        match PlaceEnemies(floors, used + {f.tile}, f.rng, i + 1, count)
        case Failure(e) => Failure(e)
        case Success((rest, rng')) =>
          var es := [Enemy(i + 1, f.tile, ENEMY_HP, ENEMY_HP)] + rest;
          assert forall k :: 0 < k < |es| ==> es[k] == rest[k - 1];
          Success((es, rng'))
  }

  /** All 1000 picks `findOpenTile` makes from generator `s` land in `used`. */
  ghost predicate Exhausted(floors: seq<Pos>, used: set<Pos>, s: Rng.Generator)
    requires |floors| > 0
  {
    forall n :: 1 <= n <= PLACEMENT_TRIES ==> Draw(floors, Rng.Advance(s.state, n)) in used
  }

  /** Placement fails only when some enemy's 1000 picks all landed on used
      tiles, the used set then holding the starting tiles plus one tile per
      enemy placed before it. */
  lemma {:induction false} PlaceEnemiesFails(floors: seq<Pos>, used: set<Pos>, rng: Rng.Generator, i: nat, count: int)
    requires |floors| > 0
    ensures PlaceEnemies(floors, used, rng, i, count).Failure? ==>
      i < count && exists u, s :: used <= u && |u| <= |used| + (count - i - 1) && Exhausted(floors, u, s)
    decreases count - i
  {
    if PlaceEnemies(floors, used, rng, i, count).Failure? {
      match FindOpenTile(floors, used, rng, 0)
      case Failure(_) =>
        assert Exhausted(floors, used, rng);
      case Success(f) =>
        PlaceEnemiesFails(floors, used + {f.tile}, f.rng, i + 1, count);
        assert |used + {f.tile}| == |used| + 1;
    }
  }

  /** Under the dungeon's own invariant, a listed floor cell is walkable. */
  lemma ListedIsWalkable(d: MapGen.Dungeon, p: Pos)
    requires MapGen.Consistent(d) && d.width == WIDTH && d.height == HEIGHT
    ensures p in d.floors <==> IsWalkable(d.tiles, p.x, p.y)
  {
  }

  /** What `newFloor` promises of the state `s` it builds from `g`: a
      consistent 60 x 30 dungeon with floor tiles, everyone on distinct
      walkable cells, 5 to 10 enemies with ids 1..count at 8 of 8 hit points,
      the player's hit points, floor and status as before, and one new log
      entry. */
  ghost predicate FreshFloor(g: State, s: State)
  {
    && MapGen.Consistent(s.dungeon) && s.dungeon.width == WIDTH && s.dungeon.height == HEIGHT
    && |s.dungeon.floors| > 0
    && Occupancy(s)
    && MIN_ENEMIES <= |s.enemies| <= MAX_ENEMIES
    && (forall k :: 0 <= k < |s.enemies| ==>
          s.enemies[k].id == k + 1 && s.enemies[k].hp == ENEMY_HP && s.enemies[k].maxHp == ENEMY_HP)
    && s.player.hp == g.player.hp && s.player.maxHp == g.player.maxHp
    && s.floor == g.floor && s.status == g.status
    && s.messages == Log(g.messages, FloorGenerated(g.floor, |s.enemies|))
  }

  /** The pieces `newFloor` draws assemble into a fresh floor. */
  lemma AssembleFloor(g: State, d: MapGen.Dungeon, spawn: Pos, enemies: seq<Enemy>, count: int, rng: Rng.Generator)
    requires MapGen.Consistent(d) && d.width == WIDTH && d.height == HEIGHT && |d.floors| > 0
    requires spawn in d.floors && MIN_ENEMIES <= count <= MAX_ENEMIES && |enemies| == count
    requires forall k :: 0 <= k < |enemies| ==>
      && enemies[k].id == k + 1 && enemies[k].hp == ENEMY_HP && enemies[k].maxHp == ENEMY_HP
      && enemies[k].pos in d.floors && enemies[k].pos !in {spawn}
    requires forall j, k :: 0 <= j < k < |enemies| ==> enemies[j].pos != enemies[k].pos
    ensures FreshFloor(g, g.(dungeon := d, player := g.player.(pos := spawn), enemies := enemies, rng := rng,
                             messages := Log(g.messages, FloorGenerated(g.floor, count))))
  {
    var s := g.(dungeon := d, player := g.player.(pos := spawn), enemies := enemies, rng := rng,
                messages := Log(g.messages, FloorGenerated(g.floor, count)));
    ListedIsWalkable(d, spawn);
    forall k | 0 <= k < |enemies|
      ensures IsWalkable(d.tiles, enemies[k].pos.x, enemies[k].pos.y) && enemies[k].pos != spawn
    {
      ListedIsWalkable(d, enemies[k].pos);
    }
    assert Occupancy(s);
  }

  /** `newFloor`: a fresh dungeon, the player on a picked floor tile, and
      `int(5, 10)` enemies placed one by one. Fails only when an enemy finds
      no open tile in 1000 picks: the generated floor list is never empty.
      `NewFloorFresh` states what the new floor looks like. */
  function NewFloor(g: State): (r: Result<State>)
    ensures r.Failure? ==> r.error == NoOpenTile
    ensures r.Success? ==> var s := r.value;
      && MIN_ENEMIES <= |s.enemies| <= MAX_ENEMIES && |s.dungeon.floors| > 0
      && s.player.hp == g.player.hp && s.player.maxHp == g.player.maxHp
      && s.floor == g.floor && s.status == g.status
      && s.messages == Log(g.messages, FloorGenerated(g.floor, |s.enemies|))
  {
    var (d, r1) := MapGen.GenerateDungeon(WIDTH, HEIGHT, g.rng);
    if |d.floors| == 0 then Failure(NoFloorTiles)
    else
      var (spawn, r2) := Rng.Pick(r1, d.floors);
      var (count, r3) := Rng.Int(r2, MIN_ENEMIES, MAX_ENEMIES);
      match PlaceEnemies(d.floors, {spawn}, r3, 0, count)
      case Failure(e) => Failure(e)
      case Success((enemies, r4)) =>
        Success(g.(dungeon := d, player := g.player.(pos := spawn), enemies := enemies, rng := r4,
                   messages := Log(g.messages, FloorGenerated(g.floor, count))))
  }

  /** Every floor `newFloor` sets up is a fresh floor. */
  lemma NewFloorFresh(g: State)
    ensures NewFloor(g).Success? ==> FreshFloor(g, NewFloor(g).value)
  {
    var (d, r1) := MapGen.GenerateDungeon(WIDTH, HEIGHT, g.rng);
    var (spawn, r2) := Rng.Pick(r1, d.floors);
    var (count, r3) := Rng.Int(r2, MIN_ENEMIES, MAX_ENEMIES);
    match PlaceEnemies(d.floors, {spawn}, r3, 0, count)
    case Failure(e) =>
    case Success((enemies, r4)) =>
      AssembleFloor(g, d, spawn, enemies, count, r4);
  }

  /** `newFloor` fails only when one enemy's 1000 picks all landed on a set
      of at most 10 tiles of the generated floor: the spawn and the enemies
      placed before it. The "no floor tiles" error never arises. */
  lemma NewFloorFails(g: State)
    ensures NewFloor(g).Failure? ==> NewFloor(g).error == NoOpenTile
    ensures NewFloor(g).Failure? ==>
      var floors := MapGen.GenerateDungeon(WIDTH, HEIGHT, g.rng).0.floors;
      exists u, s :: |u| <= MAX_ENEMIES && Exhausted(floors, u, s)
  {
    var (d, r1) := MapGen.GenerateDungeon(WIDTH, HEIGHT, g.rng);
    var (spawn, r2) := Rng.Pick(r1, d.floors);
    var (count, r3) := Rng.Int(r2, MIN_ENEMIES, MAX_ENEMIES);
    PlaceEnemiesFails(d.floors, {spawn}, r3, 0, count);
  }

  /** The run's starting state before its first floor; the placeholder
      dungeon is replaced by `NewFloor` before anything reads it. */
  function Initial(seed: int): State
  {
    State(Entity(Pos(0, 0), PLAYER_HP, PLAYER_HP), [],
          MapGen.Dungeon(WIDTH, HEIGHT, MapGen.AllWalls(WIDTH, HEIGHT), []),
          1, Playing, [], Rng.Create(seed))
  }

  /** The constructor: seed the generator and set up floor 1. */
  function NewGame(seed: int): (r: Result<State>)
    ensures r.Success? ==> var s := r.value;
      && s.floor == 1 && s.status == Playing
      && s.player.hp == PLAYER_HP && s.player.maxHp == PLAYER_HP
      && |s.messages| == 1 && s.messages[0] == FloorGenerated(1, |s.enemies|)
  {
    NewFloor(Initial(seed))
  }

  /** The state `reset(seed)` hands to `newFloor`: reseeded, floor 1, full
      hit points, playing, and a log holding only the new-run entry. */
  function Restarted(g: State, seed: int): (r: State)
    ensures r.rng == Rng.Create(seed) && r.floor == 1 && r.status == Playing
    ensures r.player.hp == g.player.maxHp && r.player.maxHp == g.player.maxHp
    ensures r.messages == [RunStarted(seed)]
  {
    LogShort([], RunStarted(seed));
    g.(rng := Rng.Create(seed), floor := 1, player := g.player.(hp := g.player.maxHp),
       status := Playing, messages := Log([], RunStarted(seed)))
  }

  /** What `reset(seed)` promises of the state `s` it builds from `g`:
      floor 1, playing, full hit points, and a log of exactly the new-floor
      entry above the new-run entry. */
  ghost predicate Restart(g: State, seed: int, s: State)
  {
    && s.floor == 1 && s.status == Playing
    && s.player.hp == g.player.maxHp && s.player.maxHp == g.player.maxHp
    && |s.messages| == 2 && s.messages[0] == FloorGenerated(1, |s.enemies|) && s.messages[1] == RunStarted(seed)
  }

  /** `reset(seed)`: a new floor on the restarted state. */
  function Reset(g: State, seed: int): (r: Result<State>)
    ensures r.Failure? ==> r.error == NoOpenTile
    ensures r.Success? ==> Restart(g, seed, r.value)
  {
    NewFloor(Restarted(g, seed))
  }

  /** A reset fails only when, on the dungeon the new seed generates, one
      enemy's 1000 picks all landed on a set of at most 10 tiles. */
  lemma ResetFails(g: State, seed: int)
    ensures Reset(g, seed).Failure? ==>
      var floors := MapGen.GenerateDungeon(WIDTH, HEIGHT, Rng.Create(seed)).0.floors;
      exists u, s :: |u| <= MAX_ENEMIES && Exhausted(floors, u, s)
  {
    NewFloorFails(Restarted(g, seed));
  }

  /** The state `nextFloor` hands to `newFloor`: one floor deeper, playing,
      healed by 5 up to the maximum. */
  function Descending(g: State): (r: State)
    ensures r.floor == g.floor + 1 && r.status == Playing
    ensures r.player.hp == Min(g.player.maxHp, g.player.hp + HEAL) && r.player.maxHp == g.player.maxHp
    ensures r.messages == g.messages && r.rng == g.rng
  {
    g.(floor := g.floor + 1, status := Playing,
       player := g.player.(hp := Min(g.player.maxHp, g.player.hp + HEAL)))
  }

  /** What `nextFloor` promises of the state `s` it builds from a won
      state `g`. */
  ghost predicate Descent(g: State, s: State)
  {
    && s.floor == g.floor + 1 && s.status == Playing
    && s.player.hp == Min(g.player.maxHp, g.player.hp + HEAL)
    && |s.dungeon.floors| > 0 && MIN_ENEMIES <= |s.enemies| <= MAX_ENEMIES
    && |s.messages| > 0 && s.messages[0] == Descended(g.floor + 1)
  }

  /** `nextFloor`: only from `Won`; a new floor on the descending state,
      then a descent entry. */
  function NextFloor(g: State): (r: Result<State>)
    ensures g.status != Won ==> r == Success(g)
    ensures g.status == Won && r.Success? ==> Descent(g, r.value)
    ensures g.status == Won && r.Failure? ==> r.error == NoOpenTile
  {
    if g.status != Won then Success(g)
    else
      match NewFloor(Descending(g))
      case Failure(e) => Failure(e)
      case Success(s) => Success(s.(messages := Log(s.messages, Descended(s.floor))))
  }

  /** Descent fails only from a won floor, and only when, on the dungeon the
      current generator yields, one enemy's 1000 picks all landed on a set
      of at most 10 tiles. */
  lemma NextFloorFails(g: State)
    ensures NextFloor(g).Failure? ==> g.status == Won
    ensures NextFloor(g).Failure? ==>
      var floors := MapGen.GenerateDungeon(WIDTH, HEIGHT, g.rng).0.floors;
      exists u, s :: |u| <= MAX_ENEMIES && Exhausted(floors, u, s)
  {
    NewFloorFails(Descending(g));
  }
}
