/** Procedural dungeon generation: random rooms on an all-wall grid, joined
    in acceptance order by L-shaped corridors, followed by a row-major scan
    that lists the floor cells. The grid is indexed `tiles[y][x]`. */
module MapGen {
  import opened Types
  import Rng

  const ROOM_ATTEMPTS: nat := 120
  const MAX_ROOMS: nat := 14

  /** The smallest grid on which every drawn room, whatever the draws,
      keeps a wall border of at least one cell (`Fits`). */
  const MIN_WIDTH: int := 13
  const MIN_HEIGHT: int := 11

  type Grid = seq<seq<Tile>>

  /** A room's top-left corner and size. */
  datatype Room = Room(x: int, y: int, w: int, h: int)

  /** The generator's output: the grid and its floor cells in scan order. */
  datatype Dungeon = Dungeon(width: int, height: int, tiles: Grid, floors: seq<Pos>)

  // ---------------------------------------------------------------------
  // Grids

  /** `height` rows of `width` cells each. */
  ghost predicate Shape(g: Grid, width: int, height: int)
  {
    |g| == height && forall y :: 0 <= y < |g| ==> |g[y]| == width
  }

  predicate InGrid(g: Grid, x: int, y: int)
  {
    0 <= y < |g| && 0 <= x < |g[y]|
  }

  predicate IsFloor(g: Grid, x: int, y: int)
  {
    InGrid(g, x, y) && g[y][x] == Floor
  }

  /** `g'` has the shape of `g` and keeps every floor cell of `g`: carving
      turns walls into floor and never the reverse. */
  ghost predicate Grows(g: Grid, g': Grid)
  {
    && |g'| == |g|
    && (forall y :: 0 <= y < |g| ==> |g'[y]| == |g[y]|)
    && (forall y, x :: IsFloor(g, x, y) ==> IsFloor(g', x, y))
  }

  lemma GrowsTransitive(g1: Grid, g2: Grid, g3: Grid)
    requires Grows(g1, g2) && Grows(g2, g3)
    ensures Grows(g1, g3)
  {
  }

  /** The initial grid: every cell a wall. */
  function AllWalls(width: nat, height: nat): (g: Grid)
    ensures Shape(g, width, height)
    ensures forall y, x :: !IsFloor(g, x, y)
  {
    seq(height, _ => seq(width, _ => Wall))
  }

  /** `tiles[y][x] = "floor"`. */
  function SetFloor(g: Grid, x: int, y: int): (r: Grid)
    requires InGrid(g, x, y)
    ensures |r| == |g| && forall yy :: 0 <= yy < |g| ==> |r[yy]| == |g[yy]|
    ensures forall yy, xx :: InGrid(r, xx, yy) ==>
      r[yy][xx] == (if yy == y && xx == x then Floor else g[yy][xx])
  {
    g[y := g[y][x := Floor]]
  }

  /** Sets every cell `lo <= x <= hi` of row `y` to floor. */
  function CarveRow(g: Grid, y: int, lo: int, hi: int): (r: Grid)
    requires 0 <= y < |g|
    requires lo <= hi ==> 0 <= lo && hi < |g[y]|
    ensures |r| == |g| && forall yy :: 0 <= yy < |g| ==> |r[yy]| == |g[yy]|
    ensures forall yy, xx :: InGrid(r, xx, yy) ==>
      r[yy][xx] == (if yy == y && lo <= xx <= hi then Floor else g[yy][xx])
    decreases hi - lo + 1
  {
    if lo > hi then g else CarveRow(SetFloor(g, lo, y), y, lo + 1, hi)
  }

  /** Sets every cell `lo <= y <= hi` of column `x` to floor. */
  function CarveColumn(g: Grid, x: int, lo: int, hi: int): (r: Grid)
    requires |g| > 0 && Shape(g, |g[0]|, |g|)
    requires lo <= hi ==> 0 <= lo && hi < |g| && 0 <= x < |g[0]|
    ensures |r| == |g| && forall yy :: 0 <= yy < |g| ==> |r[yy]| == |g[yy]|
    ensures forall yy, xx :: InGrid(r, xx, yy) ==>
      r[yy][xx] == (if xx == x && lo <= yy <= hi then Floor else g[yy][xx])
    decreases hi - lo + 1
  {
    if lo > hi then g
    else CarveColumn(SetFloor(g, x, lo), x, lo + 1, hi)
  }

  /** `carveHorizontal`: row `y` from min(x1, x2) to max(x1, x2) inclusive. */
  function CarveHorizontal(g: Grid, x1: int, x2: int, y: int): (r: Grid)
    requires InGrid(g, x1, y) && InGrid(g, x2, y)
    ensures Grows(g, r)
    ensures HorizontalFloor(r, x1, x2, y)
    ensures forall yy, xx :: InGrid(g, xx, yy) && (yy != y || xx < Min(x1, x2) || Max(x1, x2) < xx) ==>
      r[yy][xx] == g[yy][xx]
  {
    CarveRow(g, y, Min(x1, x2), Max(x1, x2))
  }

  /** `carveVertical`: column `x` from min(y1, y2) to max(y1, y2) inclusive. */
  function CarveVertical(g: Grid, y1: int, y2: int, x: int): (r: Grid)
    requires |g| > 0 && Shape(g, |g[0]|, |g|)
    requires InGrid(g, x, y1) && InGrid(g, x, y2)
    ensures Grows(g, r)
    ensures VerticalFloor(r, y1, y2, x)
    ensures forall yy, xx :: InGrid(g, xx, yy) && (xx != x || yy < Min(y1, y2) || Max(y1, y2) < yy) ==>
      r[yy][xx] == g[yy][xx]
  {
    CarveColumn(g, x, Min(y1, y2), Max(y1, y2))
  }

  /** Every cell of row `y` between x1 and x2 (inclusive) is floor. */
  ghost predicate HorizontalFloor(g: Grid, x1: int, x2: int, y: int)
  {
    forall x :: Min(x1, x2) <= x <= Max(x1, x2) ==> IsFloor(g, x, y)
  }

  /** Every cell of column `x` between y1 and y2 (inclusive) is floor. */
  ghost predicate VerticalFloor(g: Grid, y1: int, y2: int, x: int)
  {
    forall y :: Min(y1, y2) <= y <= Max(y1, y2) ==> IsFloor(g, x, y)
  }

  /** An L-shaped floor path joins `a` and `b`: horizontal along a's row then
      vertical along b's column, or vertical along a's column then horizontal
      along b's row. */
  ghost predicate Linked(g: Grid, a: Pos, b: Pos)
  {
    || (HorizontalFloor(g, a.x, b.x, a.y) && VerticalFloor(g, a.y, b.y, b.x))
    || (VerticalFloor(g, a.y, b.y, a.x) && HorizontalFloor(g, a.x, b.x, b.y))
  }

  // ---------------------------------------------------------------------
  // Rooms

  predicate Covers(room: Room, x: int, y: int)
  {
    room.x <= x < room.x + room.w && room.y <= y < room.y + room.h
  }

  /** Every cell of the room is floor. */
  ghost predicate Carved(g: Grid, room: Room)
  {
    forall y, x :: Covers(room, x, y) ==> IsFloor(g, x, y)
  }

  /** A room as the generator draws it: 4..10 wide, 4..8 high, with its
      corner in [1, width - w - 2] x [1, height - h - 2], so its cells lie in
      [1, width - 3] x [1, height - 3]. */
  predicate Fits(room: Room, width: int, height: int)
  {
    && 4 <= room.w <= 10 && 4 <= room.h <= 8
    && 1 <= room.x && room.x + room.w + 2 <= width
    && 1 <= room.y && room.y + room.h + 2 <= height
  }

  /** `center`: floor(x + w / 2), floor(y + h / 2), computed as the source
      does, on fractions. */
  function Center(room: Room): (c: Pos)
    ensures c == Pos(room.x + room.w / 2, room.y + room.h / 2)
    ensures room.w >= 1 && room.h >= 1 ==> Covers(room, c.x, c.y)
  {
    HalfFloor(room.x, room.w);
    HalfFloor(room.y, room.h);
    Pos((room.x as real + room.w as real / 2.0).Floor, (room.y as real + room.h as real / 2.0).Floor)
  }

  lemma HalfFloor(a: int, n: int)
    ensures (a as real + n as real / 2.0).Floor == a + n / 2
  {
    var q, m := n / 2, n % 2;
    assert n == 2 * q + m;
    assert a as real + n as real / 2.0 == (a + q) as real + m as real / 2.0;
  }

  /** `intersects`: the rooms' boxes, each grown by one cell on every side,
      overlap. */
  predicate Intersects(a: Room, b: Room)
  {
    a.x <= b.x + b.w + 1 && a.x + a.w + 1 >= b.x && a.y <= b.y + b.h + 1 && a.y + a.h + 1 >= b.y
  }

  /** The padded test does not depend on argument order. */
  lemma IntersectsSymmetric(a: Room, b: Room)
    ensures Intersects(a, b) == Intersects(b, a)
  {
  }

  /** Two rooms that pass the padded test are apart: two cells of
      different rooms are at least three apart along one axis, so at least
      two cells outside both rooms lie between them on that axis. */
  lemma SeparatedRooms(a: Room, b: Room, p: Pos, q: Pos)
    requires !Intersects(a, b)
    requires Covers(a, p.x, p.y) && Covers(b, q.x, q.y)
    ensures Abs(p.x - q.x) >= 3 || Abs(p.y - q.y) >= 3
  {
  }

  /** `rooms.some((r) => intersects(room, r))`. */
  predicate CollidesAny(room: Room, rooms: seq<Room>)
  {
    exists k :: 0 <= k < |rooms| && Intersects(room, rooms[k])
  }

  /** `carveRoom`: all cells of the room become floor, nothing else changes. */
  function CarveRoom(g: Grid, room: Room): (r: Grid)
    requires |g| > 0 && Shape(g, |g[0]|, |g|)
    requires room.w >= 1 && room.h >= 1
    requires 0 <= room.x && room.x + room.w <= |g[0]| && 0 <= room.y && room.y + room.h <= |g|
    ensures Grows(g, r)
    ensures Carved(r, room)
    ensures forall yy, xx :: InGrid(g, xx, yy) && !Covers(room, xx, yy) ==> r[yy][xx] == g[yy][xx]
  {
    CarveRoomRows(g, room, room.y)
  }

  /** Carves rows `y .. room.y + room.h - 1` of the room. */
  function CarveRoomRows(g: Grid, room: Room, y: int): (r: Grid)
    requires |g| > 0 && Shape(g, |g[0]|, |g|)
    requires room.w >= 1
    requires 0 <= room.x && room.x + room.w <= |g[0]| && 0 <= room.y <= y && room.y + room.h <= |g|
    ensures Shape(r, |g[0]|, |g|)
    ensures forall yy, xx :: InGrid(r, xx, yy) ==>
      r[yy][xx] == (if y <= yy && Covers(room, xx, yy) then Floor else g[yy][xx])
    decreases room.y + room.h - y
  {
    if y >= room.y + room.h then g
    else CarveRoomRows(CarveRow(g, y, room.x, room.x + room.w - 1), room, y + 1)
  }

  // ---------------------------------------------------------------------
  // Room placement

  /** What the generator keeps true of its accepted rooms and the grid:
      every room fits, was carved, clears all earlier rooms under the padded
      test, and is linked by an L-shaped floor path to its predecessor. */
  ghost predicate Layout(width: int, height: int, g: Grid, rooms: seq<Room>)
  {
    && Shape(g, width, height)
    && (forall k :: 0 <= k < |rooms| ==> Fits(rooms[k], width, height))
    && (forall k :: 0 <= k < |rooms| ==> Carved(g, rooms[k]))
    && (forall j, k :: 0 <= j < k < |rooms| ==> !Intersects(rooms[k], rooms[j]))
    && (forall k :: 0 < k < |rooms| ==> Linked(g, Center(rooms[k - 1]), Center(rooms[k])))
  }

  /** Carving more floor keeps rooms carved and corridors linked. */
  lemma LayoutGrows(width: int, height: int, g: Grid, g': Grid, rooms: seq<Room>)
    requires Layout(width, height, g, rooms)
    requires Grows(g, g') && Shape(g', width, height)
    ensures Layout(width, height, g', rooms)
  {
    forall k | 0 < k < |rooms|
      ensures Linked(g', Center(rooms[k - 1]), Center(rooms[k]))
    {
      assert Linked(g, Center(rooms[k - 1]), Center(rooms[k]));
    }
  }

  /** Connects the previous room's centre `a` to the new room's centre `b`:
      horizontal first when the draw was below one half, vertical first
      otherwise. */
  function Corridor(g: Grid, a: Pos, b: Pos, horizontalFirst: bool): (r: Grid)
    requires |g| > 0 && Shape(g, |g[0]|, |g|)
    requires InGrid(g, a.x, a.y) && InGrid(g, b.x, b.y)
    ensures Shape(r, |g[0]|, |g|)
    ensures Grows(g, r)
    ensures Linked(r, a, b)
  {
    if horizontalFirst then
      var g1 := CarveHorizontal(g, a.x, b.x, a.y);
      var r := CarveVertical(g1, a.y, b.y, b.x);
      assert HorizontalFloor(r, a.x, b.x, a.y);
      r
    else
      var g1 := CarveVertical(g, a.y, b.y, a.x);
      var r := CarveHorizontal(g1, a.x, b.x, b.y);
      assert VerticalFloor(r, a.y, b.y, a.x);
      r
  }

  /** The state of the placement loop after it stops. */
  datatype Placement = Placement(tiles: Grid, rooms: seq<Room>, rng: Rng.Generator, attempts: nat)

  /** Appending a carved, fitting, non-colliding room that is linked to its
      predecessor keeps the layout. */
  lemma ExtendLayout(width: int, height: int, g: Grid, rooms: seq<Room>, room: Room)
    requires Layout(width, height, g, rooms)
    requires Fits(room, width, height) && !CollidesAny(room, rooms) && Carved(g, room)
    requires |rooms| > 0 ==> Linked(g, Center(rooms[|rooms| - 1]), Center(room))
    ensures Layout(width, height, g, rooms + [room])
  {
    var rs := rooms + [room];
    forall k | 0 <= k < |rs|
      ensures Fits(rs[k], width, height) && Carved(g, rs[k])
    {
      if k < |rooms| {
        assert rs[k] == rooms[k];
      }
    }
    forall j, k | 0 <= j < k < |rs|
      ensures !Intersects(rs[k], rs[j])
    {
      assert rs[j] == rooms[j];
      if k == |rooms| {
        assert !Intersects(room, rooms[j]);
      } else {
        assert rs[k] == rooms[k];
      }
    }
    forall k | 0 < k < |rs|
      ensures Linked(g, Center(rs[k - 1]), Center(rs[k]))
    {
      assert rs[k - 1] == rooms[k - 1];
      if k < |rooms| {
        assert rs[k] == rooms[k];
      }
    }
  }

  /** Accepts `room`: carves it and, unless it is the first, a corridor from
      the previous room's centre, drawing once more for the orientation. */
  function Accept(width: int, height: int, g: Grid, rooms: seq<Room>, room: Room, rng: Rng.Generator)
    : (r: (Grid, Rng.Generator))
    requires width >= MIN_WIDTH && height >= MIN_HEIGHT
    requires Layout(width, height, g, rooms)
    requires Fits(room, width, height) && !CollidesAny(room, rooms)
    ensures Layout(width, height, r.0, rooms + [room])
    ensures Grows(g, r.0)
  {
    var g1 := CarveRoom(g, room);
    assert Shape(g1, width, height);
    LayoutGrows(width, height, g, g1, rooms);
    if |rooms| == 0 then
      ExtendLayout(width, height, g1, rooms, room);
      (g1, rng)
    else
      var prev := Center(rooms[|rooms| - 1]);
      var cur := Center(room);
      var (f, rng') := Rng.Next(rng);
      var g2 := CornerCorridor(width, height, g1, rooms[|rooms| - 1], room, f < 0.5);
      LayoutGrows(width, height, g1, g2, rooms);
      GrowsTransitive(g, g1, g2);
      assert Carved(g2, room) by {
        forall y, x | Covers(room, x, y) ensures IsFloor(g2, x, y) {
          assert IsFloor(g1, x, y);
        }
      }
      ExtendLayout(width, height, g2, rooms, room);
      (g2, rng')
  }

  /** The corridor between the centres of two fitting rooms stays on the grid. */
  function CornerCorridor(width: int, height: int, g: Grid, a: Room, b: Room, horizontalFirst: bool): (r: Grid)
    requires width >= MIN_WIDTH && height >= MIN_HEIGHT
    requires Shape(g, width, height)
    requires Fits(a, width, height) && Fits(b, width, height)
    ensures Shape(r, width, height) && Grows(g, r)
    ensures Linked(r, Center(a), Center(b))
  {
    var ca, cb := Center(a), Center(b);
    assert InGrid(g, ca.x, ca.y) && InGrid(g, cb.x, cb.y);
    Corridor(g, ca, cb, horizontalFirst)
  }

  /** The attempt loop from attempt `i`: draw a size and a corner, skip the
      room if it collides with an accepted one, otherwise accept it; stop
      after 120 attempts or once 14 rooms are accepted. */
  function PlaceRooms(width: int, height: int, g: Grid, rooms: seq<Room>, rng: Rng.Generator, i: nat)
    : (p: Placement)
    requires width >= MIN_WIDTH && height >= MIN_HEIGHT
    requires i <= ROOM_ATTEMPTS && |rooms| < MAX_ROOMS
    requires Layout(width, height, g, rooms)
    ensures Layout(width, height, p.tiles, p.rooms)
    ensures Grows(g, p.tiles)
    ensures rooms <= p.rooms && |p.rooms| <= MAX_ROOMS
    ensures i <= p.attempts <= ROOM_ATTEMPTS
    ensures |p.rooms| - |rooms| <= p.attempts - i
    ensures |p.rooms| < MAX_ROOMS ==> p.attempts == ROOM_ATTEMPTS
    ensures rooms == [] && i < ROOM_ATTEMPTS ==> |p.rooms| > 0
    decreases ROOM_ATTEMPTS - i
  {
    if i == ROOM_ATTEMPTS then Placement(g, rooms, rng, i)
    else
      var (w, r1) := Rng.Int(rng, 4, 10);
      var (h, r2) := Rng.Int(r1, 4, 8);
      var (x, r3) := Rng.Int(r2, 1, width - w - 2);
      var (y, r4) := Rng.Int(r3, 1, height - h - 2);
      var room := Room(x, y, w, h);
      if CollidesAny(room, rooms) then
        PlaceRooms(width, height, g, rooms, r4, i + 1)
      else
        var (g', r5) := Accept(width, height, g, rooms, room, r4);
        var rooms' := rooms + [room];
        if |rooms'| >= MAX_ROOMS then Placement(g', rooms', r5, i + 1)
        else
          var p := PlaceRooms(width, height, g', rooms', r5, i + 1);
          GrowsTransitive(g, g', p.tiles);
          p
  }

  // ---------------------------------------------------------------------
  // Floor scan

  /** Strict row-major order on cells. */
  predicate Before(a: Pos, b: Pos)
  {
    a.y < b.y || (a.y == b.y && a.x < b.x)
  }

  ghost predicate RowMajor(ps: seq<Pos>)
  {
    forall i, j :: 0 <= i < j < |ps| ==> Before(ps[i], ps[j])
  }

  /** The floor cells of row `y` from column `x` on, left to right. */
  function ScanRow(g: Grid, y: int, x: int): (ps: seq<Pos>)
    requires 0 <= y < |g| && 0 <= x <= |g[y]|
    ensures forall k :: 0 <= k < |ps| ==> ps[k].y == y && x <= ps[k].x && IsFloor(g, ps[k].x, y)
    ensures forall xx :: x <= xx && IsFloor(g, xx, y) ==> Pos(xx, y) in ps
    ensures RowMajor(ps)
    decreases |g[y]| - x
  {
    if x == |g[y]| then []
    else if g[y][x] == Floor then [Pos(x, y)] + ScanRow(g, y, x + 1)
    else ScanRow(g, y, x + 1)
  }

  /** The floor cells of rows `y` onwards, row-major. */
  function ScanRows(g: Grid, y: int): (ps: seq<Pos>)
    requires 0 <= y <= |g|
    ensures forall k :: 0 <= k < |ps| ==> y <= ps[k].y && IsFloor(g, ps[k].x, ps[k].y)
    ensures forall yy, xx :: y <= yy && IsFloor(g, xx, yy) ==> Pos(xx, yy) in ps
    ensures RowMajor(ps)
    decreases |g| - y
  {
    if y == |g| then []
    else
      var row, rest := ScanRow(g, y, 0), ScanRows(g, y + 1);
      RowMajorAppend(row, rest);
      row + rest
  }

  /** Two row-major lists, every cell of the first before every cell of the
      second, concatenate to a row-major list. */
  lemma RowMajorAppend(a: seq<Pos>, b: seq<Pos>)
    requires RowMajor(a) && RowMajor(b)
    requires forall i, j :: 0 <= i < |a| && 0 <= j < |b| ==> Before(a[i], b[j])
    ensures RowMajor(a + b)
  {
    forall i, j | 0 <= i < j < |a + b|
      ensures Before((a + b)[i], (a + b)[j])
    {
      if j < |a| {
        assert (a + b)[i] == a[i] && (a + b)[j] == a[j];
      } else if i < |a| {
        assert (a + b)[i] == a[i] && (a + b)[j] == b[j - |a|];
      } else {
        assert (a + b)[i] == b[i - |a|] && (a + b)[j] == b[j - |a|];
      }
    }
  }

  /** A dungeon whose floor list is a faithful index of its grid: exactly the
      floor cells, row-major, hence without duplicates. */
  ghost predicate Consistent(d: Dungeon)
  {
    && Shape(d.tiles, d.width, d.height)
    && (forall k :: 0 <= k < |d.floors| ==> IsFloor(d.tiles, d.floors[k].x, d.floors[k].y))
    && (forall y, x :: IsFloor(d.tiles, x, y) ==> Pos(x, y) in d.floors)
    && RowMajor(d.floors)
  }

  /** Row-major order rules out repeated cells. */
  lemma RowMajorDistinct(ps: seq<Pos>)
    requires RowMajor(ps)
    ensures forall i, j :: 0 <= i < j < |ps| ==> ps[i] != ps[j]
  {
  }

  // ---------------------------------------------------------------------
  // Generation

  /** `generateDungeon`: places rooms on an all-wall grid, then lists the
      floor cells. Also returns the accepted rooms, which the source keeps
      local. */
  function GenerateLayout(width: int, height: int, rng: Rng.Generator): (p: Placement)
    requires width >= MIN_WIDTH && height >= MIN_HEIGHT
    ensures Layout(width, height, p.tiles, p.rooms)
    ensures 1 <= |p.rooms| <= MAX_ROOMS && p.attempts <= ROOM_ATTEMPTS
    ensures |p.rooms| < MAX_ROOMS ==> p.attempts == ROOM_ATTEMPTS
    ensures forall j, k :: 0 <= j < |p.rooms| && 0 <= k < |p.rooms| && j != k ==> !Intersects(p.rooms[j], p.rooms[k])
  {
    var p := PlaceRooms(width, height, AllWalls(width, height), [], rng, 0);
    forall j, k | 0 <= j < k < |p.rooms|
      ensures !Intersects(p.rooms[j], p.rooms[k])
    {
      IntersectsSymmetric(p.rooms[k], p.rooms[j]);
    }
    p
  }

  /** `generateDungeon`: the grid and its row-major floor list, and the
      generator advanced past every draw. */
  function GenerateDungeon(width: int, height: int, rng: Rng.Generator): (r: (Dungeon, Rng.Generator))
    requires width >= MIN_WIDTH && height >= MIN_HEIGHT
    ensures r.0.width == width && r.0.height == height
    ensures Consistent(r.0)
    ensures |r.0.floors| > 0
    ensures r.0.tiles == GenerateLayout(width, height, rng).tiles
    ensures r.1 == GenerateLayout(width, height, rng).rng
  {
    var p := GenerateLayout(width, height, rng);
    var floors := ScanRows(p.tiles, 0);
    var room := p.rooms[0];
    assert Covers(room, room.x, room.y);
    assert Pos(room.x, room.y) in floors;
    (Dungeon(width, height, p.tiles, floors), p.rng)
  }
}
