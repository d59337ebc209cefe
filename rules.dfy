/** What every operation of a `GameRoom` does to the room, as functions from
    the room before to the room after (server/game/GameRoom.js). The class in
    Engine runs these operations in place, statement by statement, and is
    proved to end in exactly the state these functions give. */
module Rules {
  import opened Opt
  import opened Grid
  import opened Roster
  import Spiral

  datatype GameState = Lobby | Playing | RoundEnd | Ended

  /** A bomb sits on a whole cell; `timer` counts down its fuse. */
  datatype Bomb = Bomb(x: int, y: int, ownerId: string, timer: int, range: int)

  /** One blast cell, kept while its `timer` is above the fade threshold. */
  datatype Explosion = Explosion(x: int, y: int, timer: int)

  /** A movement intent; `Other` is any other string, which moves nobody. */
  datatype Direction = Up | Down | Left | Right | Other

  /** A blast direction as a unit step (dx, dy). */
  datatype Delta = Delta(dx: int, dy: int)

  /** The blast directions after the bomb's own cell, in the order they are
      walked: east, west, south, north. */
  const Directions: seq<Delta> := [Delta(1, 0), Delta(-1, 0), Delta(0, 1), Delta(0, -1)]

  // Fuse and blast timers count thirtieths of a millisecond, so that the
  // 30 Hz step of 1000/30 ms is the whole number TickDt.
  const TimeScale: int := 30
  const BombFuse: int := 3000 * TimeScale
  const ArmedBelow: int := 2500 * TimeScale
  const ExplosionLife: int := 500 * TimeScale
  const ExplosionFade: int := 100 * TimeScale
  const TickDt: int := 1000

  // Clock readings (`Date.now()`) are whole milliseconds.
  const SuddenDeathDelay: int := 120000
  const SuddenDeathPeriod: int := 500

  /** One movement step: 0.15 of a cell in fixed point. */
  const Speed: int := 15
  const DefaultMaxPlayers: int := 4

  /** The eight spawn cells, in join order, as fixed-point positions. */
  const StartPositions: seq<(int, int)> := [
    (100, 100), (1300, 1100), (100, 1100), (1300, 100),
    (700, 100), (700, 1100), (100, 600), (1300, 600)]

  datatype Room = Room(
    roomId: string,
    grid: Cells,
    players: Players,
    bombs: seq<Bomb>,
    explosions: seq<Explosion>,
    maxPlayers: int,
    gameState: GameState,
    hostId: Option<string>,
    winner: Option<string>,
    matchStartTime: int,
    suddenDeathTimer: int,
    suddenDeathIndex: int,
    lastSuddenDeathTick: int,
    currentRound: Option<int>,
    roundWins: Option<map<string, int>>)

  /** What the representation guarantees: a 15 by 13 grid and a player map. */
  predicate Valid(r: Room) {
    WellFormed(r.grid) && DistinctIds(r.players)
  }

  /** Only the `alive` flags and `kills` counters changed, flags only from
      alive to dead and counters only upwards. */
  predicate OnlyFate(ps: Players, qs: Players) {
    |ps| == |qs| &&
    forall i | 0 <= i < |ps| ::
      qs[i] == ps[i].(alive := qs[i].alive, kills := qs[i].kills) &&
      (qs[i].alive ==> ps[i].alive) && ps[i].kills <= qs[i].kills
  }

  // ----------------------------------------------------------------------
  // Creation and membership

  /** The decimal digits of a natural number. */
  function Digits(n: nat): (s: string)
    ensures |s| >= 1
    decreases n
  {
    if n < 10 then ["0123456789"[n]] else Digits(n / 10) + ["0123456789"[n % 10]]
  }

  /** `Player ${index + 1}`, the name of a player who gave none. */
  function DefaultName(index: nat): string {
    "Player " + Digits(index + 1)
  }

  /** `new GameRoom(roomId, { maxPlayers })`; a setting of 0 stands for an
      absent or falsy one, which falls back to 4. */
  function NewRoom(roomId: string, maxPlayersSetting: int, grid: Cells): (r: Room)
    requires WellFormed(grid)
    ensures Valid(r) && r.players == [] && r.bombs == [] && r.explosions == []
    ensures r.gameState == Lobby && r.hostId == None && r.winner == None
    ensures r.maxPlayers == (if maxPlayersSetting == 0 then DefaultMaxPlayers else maxPlayersSetting)
    ensures r.suddenDeathTimer == SuddenDeathDelay && r.suddenDeathIndex == 0
  {
    Room(roomId, grid, [], [], [],
      if maxPlayersSetting == 0 then DefaultMaxPlayers else maxPlayersSetting,
      Lobby, None, None, 0, SuddenDeathDelay, 0, 0, None, None)
  }

  /** The record `addPlayer` builds for the player joining at `index`. */
  function NewPlayer(id: string, name: string, index: nat): Player {
    var pos := StartPositions[index % |StartPositions|];
    Player(id, if name == "" then DefaultName(index) else name, pos.0, pos.1,
      true, None, 1, 0, 2, index == 0, 0)
  }

  /** `addPlayer`: refused outside the lobby and when the room is full. */
  function AddPlayer(r: Room, id: string, name: string): (res: (Room, Option<Player>))
    requires Valid(r)
    ensures Valid(res.0)
  {
    if |r.players| >= r.maxPlayers && r.gameState == Lobby then (r, None)
    else if r.gameState != Lobby then (r, None)
    else
      var p := NewPlayer(id, name, |r.players|);
      (r.(players := Put(r.players, p), hostId := if p.isHost then Some(id) else r.hostId), Some(p))
  }

  /** `checkWinCondition`: at most one survivor among more than one player
      ends the game, naming the first survivor in join order, if any. */
  function CheckWinCondition(r: Room): (r': Room)
    ensures r' == r.(gameState := r'.gameState, winner := r'.winner)
  {
    var alives := Alives(r.players);
    if |alives| <= 1 && |r.players| > 1 then
      r.(gameState := Ended, winner := if alives != [] then Some(alives[0].id) else None)
    else r
  }

  /** `removePlayer`: the earliest remaining player inherits the host role,
      and a game in progress re-checks for a winner. */
  function RemovePlayer(r: Room, id: string): (r': Room)
    requires Valid(r)
    ensures Valid(r')
  {
    var ps := Delete(r.players, id);
    var r1 := r.(players := ps);
    var r2 :=
      if r.hostId == Some(id) && |ps| > 0 then
        FindAt(ps, 0);
        r1.(hostId := Some(ps[0].id), players := Put(ps, ps[0].(isHost := true)))
      else r1;
    if r.gameState == Playing then CheckWinCondition(r2) else r2
  }

  /** `startGame`: only the host, only from the lobby. */
  function StartGame(r: Room, id: string, now: int): (res: (Room, bool))
    ensures res.1 <==> r.hostId == Some(id) && r.gameState == Lobby
    ensures res.1 ==> res.0 == r.(gameState := Playing, matchStartTime := now)
    ensures !res.1 ==> res.0 == r
  {
    if r.hostId == Some(id) && r.gameState == Lobby then
      (r.(gameState := Playing, matchStartTime := now), true)
    else (r, false)
  }

  // ----------------------------------------------------------------------
  // Movement and bombs

  /** `bombs.find(b => b.x === x && b.y === y)` */
  function BombAt(bs: seq<Bomb>, x: int, y: int): (r: Option<Bomb>)
    ensures r.Some? ==> r.value in bs && r.value.x == x && r.value.y == y
    ensures r.None? <==> forall i | 0 <= i < |bs| :: !(bs[i].x == x && bs[i].y == y)
  {
    if bs == [] then None
    else if bs[0].x == x && bs[0].y == y then Some(bs[0])
    else BombAt(bs[1..], x, y)
  }

  /** `checkCollision`: the rounded cell is off the grid or not empty, or it
      holds a bomb that is someone else's or has been armed (its fuse is
      below 2500 ms). */
  function CheckCollision(r: Room, x: int, y: int, id: string): bool
    requires Valid(r)
  {
    var gx := Round(x); var gy := Round(y);
    if !InGrid(gx, gy) then true
    else if r.grid[gy][gx] != Empty then true
    else match BombAt(r.bombs, gx, gy)
      case None => false
      case Some(b) => b.ownerId != id || b.timer < ArmedBelow
  }

  /** The position one step away in a direction. */
  function Stepped(x: int, y: int, dir: Direction): (int, int) {
    match dir
    case Up => (x, y - Speed)
    case Down => (x, y + Speed)
    case Left => (x - Speed, y)
    case Right => (x + Speed, y)
    case Other => (x, y)
  }

  /** `movePlayer` */
  function MovePlayer(r: Room, id: string, dir: Direction): (r': Room)
    requires Valid(r)
    ensures Valid(r')
  {
    if r.gameState != Playing then r
    else match Get(r.players, id)
      case None => r
      case Some(p) =>
        if !p.alive then r
        else
          var (nx, ny) := Stepped(p.x, p.y, dir);
          if !CheckCollision(r, nx, ny, id) then r.(players := Put(r.players, p.(x := nx, y := ny)))
          else r
  }

  /** `bombs.some(b => b.x === x && b.y === y)` */
  predicate BombOn(bs: seq<Bomb>, x: int, y: int) {
    exists i | 0 <= i < |bs| :: bs[i].x == x && bs[i].y == y
  }

  /** `placeBomb` */
  function PlaceBomb(r: Room, id: string): (r': Room)
    requires Valid(r)
    ensures Valid(r')
  {
    if r.gameState != Playing then r
    else match Get(r.players, id)
      case None => r
      case Some(p) =>
        if !p.alive then r
        else if p.activeBombs < p.maxBombs then
          var cx := Round(p.x); var cy := Round(p.y);
          if !BombOn(r.bombs, cx, cy) then Arm(r, p, cx, cy) else r
        else r
  }

  /** The placement itself: a fresh bomb of p's on (x, y) and one more
      active bomb on p's record. */
  function Arm(r: Room, p: Player, x: int, y: int): (r': Room)
    requires Valid(r)
    ensures Valid(r')
  {
    r.(bombs := r.bombs + [Bomb(x, y, p.id, BombFuse, p.bombRange)],
       players := Put(r.players, p.(activeBombs := p.activeBombs + 1)))
  }

  // ----------------------------------------------------------------------
  // Blasts
  //
  // The functions below say of the room only what their callers need: which
  // fields may change, that the grid stays 15 by 13 and that the player map
  // keeps its keys. What they do to the players is proved in RulesProofs.

  predicate OnCell(p: Player, x: int, y: int) {
    Round(p.x) == x && Round(p.y) == y
  }

  /** The kill credit: one more kill for the owner, if still in the room. */
  function Credit(ps: Players, ownerId: string): (qs: Players)
    ensures |qs| == |ps| && Ids(qs) == Ids(ps)
  {
    match Find(ps, ownerId)
    case None => ps
    case Some(k) =>
      var q := ps[k].(kills := ps[k].kills + 1);
      IdsUpdate(ps, k, q);
      ps[k := q]
  }

  /** The body of the `forEach` for a living player i on the blast cell:
      death, the owner's credit when it is not a suicide, the win check. */
  function Kill(r: Room, i: nat, ownerId: string): (r': Room)
    requires i < |r.players|
    ensures r' == r.(players := r'.players, gameState := r'.gameState, winner := r'.winner)
    ensures |r'.players| == |r.players| && Ids(r'.players) == Ids(r.players)
  {
    var p := r.players[i].(alive := false);
    IdsUpdate(r.players, i, p);
    var ps1 := r.players[i := p];
    var ps2 := if ownerId != p.id then Credit(ps1, ownerId) else ps1;
    CheckWinCondition(r.(players := ps2))
  }

  /** Pass i of the `players.forEach` of `createExplosionCell`. */
  function StrikeStep(r: Room, x: int, y: int, ownerId: string, i: nat): (r': Room)
    requires i < |r.players|
    ensures r' == r.(players := r'.players, gameState := r'.gameState, winner := r'.winner)
    ensures |r'.players| == |r.players| && Ids(r'.players) == Ids(r.players)
  {
    if r.players[i].alive && OnCell(r.players[i], x, y) then Kill(r, i, ownerId) else r
  }

  /** That `forEach` once it has visited the positions below n. */
  function StrikeUpTo(r: Room, x: int, y: int, ownerId: string, n: nat): (r': Room)
    requires n <= |r.players|
    ensures r' == r.(players := r'.players, gameState := r'.gameState, winner := r'.winner)
    ensures |r'.players| == |r.players| && Ids(r'.players) == Ids(r.players)
    decreases n
  {
    if n == 0 then r else StrikeStep(StrikeUpTo(r, x, y, ownerId, n - 1), x, y, ownerId, n - 1)
  }

  /** `createExplosionCell`: a blast cell, and every living player on it dies. */
  function Strike(r: Room, x: int, y: int, ownerId: string): (r': Room)
    ensures r'.explosions == r.explosions + [Explosion(x, y, ExplosionLife)]
    ensures r' == r.(players := r'.players, gameState := r'.gameState, winner := r'.winner,
                     explosions := r'.explosions)
    ensures |r'.players| == |r.players| && Ids(r'.players) == Ids(r.players)
  {
    var r0 := r.(explosions := r.explosions + [Explosion(x, y, ExplosionLife)]);
    StrikeUpTo(r0, x, y, ownerId, |r0.players|)
  }

  /** Step i of one direction of `explodeBomb`; the flag says whether the
      `for` loop breaks there: before a wall, or after clearing a soft block. */
  function RayStep(r: Room, b: Bomb, d: Delta, i: int): (res: (Room, bool))
    requires WellFormed(r.grid)
    ensures WellFormed(res.0.grid)
    ensures res.0 == r.(players := res.0.players, gameState := res.0.gameState, winner := res.0.winner,
                        explosions := res.0.explosions, grid := res.0.grid)
    ensures |res.0.players| == |r.players| && Ids(res.0.players) == Ids(r.players)
  {
    var tx := b.x + d.dx * i;
    var ty := b.y + d.dy * i;
    if IsWall(r.grid, tx, ty) then (r, true)
    else
      var r1 := Strike(r, tx, ty, b.ownerId);
      if IsSoftBlock(r1.grid, tx, ty) then (r1.(grid := SetCell(r1.grid, tx, ty, Empty)), true)
      else (r1, false)
  }

  /** One direction once the `for` loop has run steps 1 to n, or fewer if it
      broke; the flag says whether it broke. */
  function RayUpTo(r: Room, b: Bomb, d: Delta, n: nat): (res: (Room, bool))
    requires WellFormed(r.grid)
    ensures WellFormed(res.0.grid)
    ensures res.0 == r.(players := res.0.players, gameState := res.0.gameState, winner := res.0.winner,
                        explosions := res.0.explosions, grid := res.0.grid)
    ensures |res.0.players| == |r.players| && Ids(res.0.players) == Ids(r.players)
    decreases n
  {
    if n == 0 then (r, false)
    else
      var prev := RayUpTo(r, b, d, n - 1);
      if prev.1 then prev else RayStep(prev.0, b, d, n)
  }

  /** The number of steps the `for` loop of a ray may take. */
  function Reach(b: Bomb): nat {
    if b.range < 0 then 0 else b.range
  }

  /** One direction of `explodeBomb`. */
  function Ray(r: Room, b: Bomb, d: Delta): (r': Room)
    requires WellFormed(r.grid)
    ensures WellFormed(r'.grid)
    ensures r' == r.(players := r'.players, gameState := r'.gameState, winner := r'.winner,
                     explosions := r'.explosions, grid := r'.grid)
    ensures |r'.players| == |r.players| && Ids(r'.players) == Ids(r.players)
  {
    RayUpTo(r, b, d, Reach(b)).0
  }

  /** Once the loop has broken, further steps change nothing. */
  lemma {:induction false} RayStops(r: Room, b: Bomb, d: Delta, i: nat, n: nat)
    requires WellFormed(r.grid) && i <= n && RayUpTo(r, b, d, i).1
    ensures RayUpTo(r, b, d, n) == RayUpTo(r, b, d, i)
    decreases n
  {
    if n > i {
      RayStops(r, b, d, i, n - 1);
      RayStaysStopped(r, b, d, n);
    }
  }

  /** A loop that has not broken takes step n. */
  lemma RayGoesOnStep(r: Room, b: Bomb, d: Delta, n: nat)
    requires WellFormed(r.grid) && n >= 1 && !RayUpTo(r, b, d, n - 1).1
    ensures RayUpTo(r, b, d, n) == RayStep(RayUpTo(r, b, d, n - 1).0, b, d, n)
  {
  }

  lemma RayStaysStopped(r: Room, b: Bomb, d: Delta, n: nat)
    requires WellFormed(r.grid) && n >= 1 && RayUpTo(r, b, d, n - 1).1
    ensures RayUpTo(r, b, d, n) == RayUpTo(r, b, d, n - 1)
  {
  }

  /** The `forEach` over the directions of `explodeBomb` once the first k
      directions have had their ray. */
  function RaysUpTo(r: Room, b: Bomb, k: nat): (r': Room)
    requires WellFormed(r.grid) && k <= |Directions|
    ensures WellFormed(r'.grid)
    ensures r' == r.(players := r'.players, gameState := r'.gameState, winner := r'.winner,
                     explosions := r'.explosions, grid := r'.grid)
    ensures |r'.players| == |r.players| && Ids(r'.players) == Ids(r.players)
    decreases k
  {
    if k == 0 then r else Ray(RaysUpTo(r, b, k - 1), b, Directions[k - 1])
  }

  /** `explodeBomb`: the bomb's own cell, then the four rays. */
  function Explode(r: Room, b: Bomb): (r': Room)
    requires WellFormed(r.grid)
    ensures WellFormed(r'.grid)
    ensures r' == r.(players := r'.players, gameState := r'.gameState, winner := r'.winner,
                     explosions := r'.explosions, grid := r'.grid)
    ensures |r'.players| == |r.players| && Ids(r'.players) == Ids(r.players)
  {
    RaysUpTo(Strike(r, b.x, b.y, b.ownerId), b, |Directions|)
  }

  // ----------------------------------------------------------------------
  // The fixed step

  /** The owner of a detonated bomb gets one bomb back, if still present. */
  function Release(ps: Players, ownerId: string): (qs: Players)
    ensures |qs| == |ps| && Ids(qs) == Ids(ps)
  {
    match Find(ps, ownerId)
    case None => ps
    case Some(k) =>
      var q := ps[k].(activeBombs := ps[k].activeBombs - 1);
      IdsUpdate(ps, k, q);
      ps[k := q]
  }

  /** Bomb j's fuse burns down by dt. */
  function Burn(r: Room, dt: int, j: nat): (r': Room)
    requires j < |r.bombs|
    ensures r' == r.(bombs := r'.bombs) && |r'.bombs| == |r.bombs|
    ensures r'.bombs[j] == r.bombs[j].(timer := r.bombs[j].timer - dt)
    ensures forall k | 0 <= k < |r.bombs| && k != j :: r'.bombs[k] == r.bombs[k]
  {
    r.(bombs := r.bombs[j := r.bombs[j].(timer := r.bombs[j].timer - dt)])
  }

  /** Bomb j goes off: it explodes, leaves the list and its owner, if still
      present, gets it back. */
  function Detonate(r: Room, j: nat): (r': Room)
    requires WellFormed(r.grid) && j < |r.bombs|
    ensures r' == r.(players := r'.players, bombs := r'.bombs, explosions := r'.explosions, grid := r'.grid,
                     gameState := r'.gameState, winner := r'.winner)
    ensures WellFormed(r'.grid)
    ensures r'.bombs == r.bombs[..j] + r.bombs[j + 1..]
    ensures |r'.players| == |r.players| && Ids(r'.players) == Ids(r.players)
  {
    var b := r.bombs[j];
    var r1 := Explode(r, b);
    var r2 := r1.(bombs := r1.bombs[..j] + r1.bombs[j + 1..]);
    r2.(players := Release(r2.players, b.ownerId))
  }

  /** One pass of the reverse bomb loop of `update`: bomb j's fuse burns down
      by dt, and a bomb whose fuse is spent goes off. */
  function TickBomb(r: Room, dt: int, j: nat): (r': Room)
    requires WellFormed(r.grid) && j < |r.bombs|
    ensures r' == r.(players := r'.players, bombs := r'.bombs, explosions := r'.explosions, grid := r'.grid,
                     gameState := r'.gameState, winner := r'.winner)
    ensures WellFormed(r'.grid) && |r'.bombs| >= j
    ensures |r'.players| == |r.players| && Ids(r'.players) == Ids(r.players)
  {
    if r.bombs[j].timer - dt <= 0 then Detonate(Burn(r, dt, j), j) else Burn(r, dt, j)
  }

  /** The reverse bomb loop once it has visited the positions from the last
      one down to i; the positions below i are not touched yet. */
  function TickBombsDown(r: Room, dt: int, i: nat): (r': Room)
    requires WellFormed(r.grid) && i <= |r.bombs|
    ensures r' == r.(players := r'.players, bombs := r'.bombs, explosions := r'.explosions, grid := r'.grid,
                     gameState := r'.gameState, winner := r'.winner)
    ensures WellFormed(r'.grid) && |r'.bombs| >= i
    ensures |r'.players| == |r.players| && Ids(r'.players) == Ids(r.players)
    decreases |r.bombs| - i
  {
    if i == |r.bombs| then r else TickBomb(TickBombsDown(r, dt, i + 1), dt, i)
  }

  /** The reverse bomb loop visits position i right after position i + 1. */
  lemma TickBombsDownStep(r: Room, dt: int, i: nat)
    requires WellFormed(r.grid) && i < |r.bombs|
    ensures TickBombsDown(r, dt, i) == TickBomb(TickBombsDown(r, dt, i + 1), dt, i)
  {
  }

  /** One pass of the reverse explosion loop: explosion j's timer runs down
      by dt, and it leaves the list once it is at or below the fade mark. */
  function Fade(es: seq<Explosion>, dt: int, j: nat): (es': seq<Explosion>)
    requires j < |es|
    ensures |es'| >= j
  {
    var e := es[j].(timer := es[j].timer - dt);
    if e.timer <= ExplosionFade then es[..j] + es[j + 1..] else es[j := e]
  }

  /** The reverse explosion loop once it has visited the positions from the
      last one down to i. */
  function FadeDown(es: seq<Explosion>, dt: int, i: nat): (es': seq<Explosion>)
    requires i <= |es|
    ensures |es'| >= i
    decreases |es| - i
  {
    if i == |es| then es else Fade(FadeDown(es, dt, i + 1), dt, i)
  }

  /** Pass i of the `players.forEach` of `applySuddenDeath`: death without
      kill credit. */
  function CrushStep(r: Room, x: int, y: int, i: nat): (r': Room)
    requires i < |r.players|
    ensures r' == r.(players := r'.players, gameState := r'.gameState, winner := r'.winner)
    ensures |r'.players| == |r.players| && Ids(r'.players) == Ids(r.players)
  {
    if r.players[i].alive && OnCell(r.players[i], x, y) then
      var p := r.players[i].(alive := false);
      IdsUpdate(r.players, i, p);
      CheckWinCondition(r.(players := r.players[i := p]))
    else r
  }

  /** That `forEach` once it has visited the positions below n. */
  function CrushUpTo(r: Room, x: int, y: int, n: nat): (r': Room)
    requires n <= |r.players|
    ensures r' == r.(players := r'.players, gameState := r'.gameState, winner := r'.winner)
    ensures |r'.players| == |r.players| && Ids(r'.players) == Ids(r.players)
    decreases n
  {
    if n == 0 then r else CrushStep(CrushUpTo(r, x, y, n - 1), x, y, n - 1)
  }

  /** `applySuddenDeath`: at most once per 500 ms, the next cell of the
      spiral becomes a wall and crushes whoever stands on it. */
  function ApplySuddenDeath(r: Room, now: int): (r': Room)
    requires WellFormed(r.grid)
    ensures r' == r.(players := r'.players, grid := r'.grid, gameState := r'.gameState, winner := r'.winner,
                     suddenDeathIndex := r'.suddenDeathIndex, lastSuddenDeathTick := r'.lastSuddenDeathTick)
    ensures WellFormed(r'.grid)
    ensures |r'.players| == |r.players| && Ids(r'.players) == Ids(r.players)
  {
    if now - r.lastSuddenDeathTick < SuddenDeathPeriod then r
    else
      var r1 := r.(lastSuddenDeathTick := now);
      match Spiral.SpiralAt(r1.suddenDeathIndex)
      case None => r1
      case Some(c) =>
        Spiral.SpiralInGrid(r1.suddenDeathIndex);
        var r2 := r1.(grid := SetCell(r1.grid, c.x, c.y, Wall));
        var r3 := CrushUpTo(r2, c.x, c.y, |r2.players|);
        r3.(suddenDeathIndex := r3.suddenDeathIndex + 1)
  }

  /** `update(dt)` at clock reading `now`. */
  function Update(r: Room, dt: int, now: int): (r': Room)
    requires Valid(r)
    ensures Valid(r') && Ids(r'.players) == Ids(r.players)
  {
    if r.gameState != Playing then r
    else
      var r1 := TickBombsDown(r, dt, 0);
      var r2 := r1.(explosions := FadeDown(r1.explosions, dt, 0));
      var r3 := if now - r2.matchStartTime > r2.suddenDeathTimer then ApplySuddenDeath(r2, now) else r2;
      SameIdsDistinct(r.players, r3.players);
      r3
  }
}
