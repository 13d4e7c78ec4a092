/** Data shapes shared by the roguelike engine: grid tiles, positions,
    entities, the message log entries and the game status, plus the
    failure-carrying wrappers the engine uses in place of exceptions. */
module Types {

  /** One grid cell. */
  datatype Tile = Wall | Floor

  /** A grid coordinate; consumers check it against the grid bounds. */
  datatype Pos = Pos(x: int, y: int)

  /** The player: a position with current and maximum hit points. */
  datatype Entity = Entity(pos: Pos, hp: int, maxHp: int)

  /** A live enemy, identified by `id` within its floor. */
  datatype Enemy = Enemy(id: int, pos: Pos, hp: int, maxHp: int)

  datatype Status = Playing | Won | Lost

  /** The log entries the engine writes; the rendered text of each is left abstract. */
  datatype Message =
    | RunStarted(seed: int)
    | BumpedWall
    | PlayerHits(enemyId: int)
    | EnemyDies(enemyId: int)
    | AllDefeated
    | Descended(floor: int)
    | FloorGenerated(floor: int, enemyCount: int)
    | EnemyHits(enemyId: int)
    | GameOver

  /** The two fatal conditions of floor setup. */
  datatype GenError = NoFloorTiles | NoOpenTile

  datatype Option<+T> = None | Some(value: T)

  datatype Result<+T> = Success(value: T) | Failure(error: GenError)

  function Abs(n: int): (r: nat)
    ensures r == n || r == -n
  {
    if n < 0 then -n else n
  }

  /** Manhattan distance between two cells. */
  function Dist(a: Pos, b: Pos): nat
  {
    Abs(a.x - b.x) + Abs(a.y - b.y)
  }

  function Min(a: int, b: int): int
  {
    if a <= b then a else b
  }

  function Max(a: int, b: int): int
  {
    if a <= b then b else a
  }
}
