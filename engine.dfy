/** The `GameRoom` class of server/game/GameRoom.js: one room's state, kept
    in fields and changed in place by its methods. Every method is proved to
    leave the room exactly in the state the matching function of Rules gives
    for the state before the call. */
module Engine {
  import opened Opt
  import opened Grid
  import opened Roster
  import opened Rules
  import Spiral
  import RulesProofs

  class GameRoom {
    const roomId: string
    var players: Players
    var grid: Cells
    var bombs: seq<Bomb>
    var explosions: seq<Explosion>
    const maxPlayers: int
    var gameState: GameState
    var hostId: Option<string>
    var winner: Option<string>
    var matchStartTime: int
    const suddenDeathTimer: int
    var suddenDeathIndex: int
    var lastSuddenDeathTick: int
    // Written from outside by the match handlers; the class never sets them.
    var currentRound: Option<int>
    var roundWins: Option<map<string, int>>

    /** The whole state of the room as a value. */
    function Snapshot(): Room
      reads this
    {
      Room(roomId, grid, players, bombs, explosions, maxPlayers, gameState, hostId, winner,
        matchStartTime, suddenDeathTimer, suddenDeathIndex, lastSuddenDeathTick,
        currentRound, roundWins)
    }

    predicate Valid()
      reads this
    {
      Rules.Valid(Snapshot())
    }

    /** The constructor; `draw` stands for the random soft-block draws. */
    constructor (roomId: string, maxPlayersSetting: int, draw: (int, int) -> bool)
      ensures Valid()
      ensures forall y, x | InGrid(x, y) :: grid[y][x] == InitialCell(x, y, draw)
      ensures Snapshot() == NewRoom(roomId, maxPlayersSetting, grid)
    {
      this.roomId := roomId;
      players := [];
      bombs := [];
      explosions := [];
      maxPlayers := if maxPlayersSetting == 0 then DefaultMaxPlayers else maxPlayersSetting;
      gameState := Lobby;
      hostId := None;
      winner := None;
      matchStartTime := 0;
      suddenDeathTimer := SuddenDeathDelay;
      suddenDeathIndex := 0;
      lastSuddenDeathTick := 0;
      currentRound := None;
      roundWins := None;
      new;
      grid := GenerateGrid(draw);
    }

    method AddPlayer(socketId: string, playerName: string) returns (player: Option<Player>)
      requires Valid()
      modifies this
      ensures Valid()
      ensures (Snapshot(), player) == Rules.AddPlayer(old(Snapshot()), socketId, playerName)
    {
      if |players| >= maxPlayers && gameState == Lobby { return None; }
      if gameState != Lobby { return None; }
      var index := |players|;
      var p := NewPlayer(socketId, playerName, index);
      if p.isHost { hostId := Some(socketId); }
      players := Put(players, p);
      return Some(p);
    }

    method RemovePlayer(socketId: string)
      requires Valid()
      modifies this
      ensures Valid()
      ensures Snapshot() == Rules.RemovePlayer(old(Snapshot()), socketId)
    {
      players := Delete(players, socketId);
      if hostId == Some(socketId) && |players| > 0 {
        var nextHost := players[0].id;
        hostId := Some(nextHost);
        FindAt(players, 0);
        var nextPlayer := Get(players, nextHost);
        if nextPlayer.Some? {
          players := Put(players, nextPlayer.value.(isHost := true));
        }
      }
      if gameState == Playing {
        CheckWinCondition();
      }
    }

    method StartGame(socketId: string, now: int) returns (started: bool)
      modifies this
      ensures (Snapshot(), started) == Rules.StartGame(old(Snapshot()), socketId, now)
    {
      if hostId == Some(socketId) && gameState == Lobby {
        gameState := Playing;
        matchStartTime := now;
        return true;
      }
      return false;
    }

    method MovePlayer(socketId: string, direction: Direction)
      requires Valid()
      modifies this
      ensures Valid()
      ensures Snapshot() == Rules.MovePlayer(old(Snapshot()), socketId, direction)
    {
      if gameState != Playing { return; }
      var player := Get(players, socketId);
      if player.None? || !player.value.alive { return; }
      var p := player.value;
      var (newX, newY) := Stepped(p.x, p.y, direction);
      if !CheckCollision(Snapshot(), newX, newY, socketId) {
        players := Put(players, p.(x := newX, y := newY));
      }
    }

    method PlaceBomb(socketId: string)
      requires Valid()
      modifies this
      ensures Valid()
      ensures Snapshot() == Rules.PlaceBomb(old(Snapshot()), socketId)
    {
      if gameState != Playing { return; }
      var player := Get(players, socketId);
      if player.None? || !player.value.alive { return; }
      var p := player.value;
      if p.activeBombs < p.maxBombs {
        var bombX := Round(p.x);
        var bombY := Round(p.y);
        if !BombOn(bombs, bombX, bombY) {
          Arm(p, bombX, bombY);
        }
      }
    }

    /** The placement itself: a fresh bomb on (x, y) and one more active bomb
        for its owner. */
    method Arm(p: Player, x: int, y: int)
      requires Valid()
      modifies this
      ensures Snapshot() == Rules.Arm(old(Snapshot()), p, x, y)
    {
      bombs := bombs + [Bomb(x, y, p.id, BombFuse, p.bombRange)];
      players := Put(players, p.(activeBombs := p.activeBombs + 1));
    }

    method CheckWinCondition()
      modifies this
      ensures Snapshot() == Rules.CheckWinCondition(old(Snapshot()))
    {
      var alives := Alives(players);
      if |alives| <= 1 && |players| > 1 {
        gameState := Ended;
        winner := if alives != [] then Some(alives[0].id) else None;
      }
    }

    method CreateExplosionCell(x: int, y: int, ownerId: string)
      modifies this
      ensures Snapshot() == Strike(old(Snapshot()), x, y, ownerId)
    {
      explosions := explosions + [Explosion(x, y, ExplosionLife)];
      ghost var start := Snapshot();
      var i := 0;
      while i < |players|
        invariant i <= |start.players|
        invariant Snapshot() == StrikeUpTo(start, x, y, ownerId, i)
        decreases |players| - i
      {
        var player := players[i];
        if player.alive && Round(player.x) == x && Round(player.y) == y {
          KillPlayer(i, ownerId);
        }
        i := i + 1;
      }
    }

    /** The body of the `forEach` in `createExplosionCell` for a living
        player on the blast cell. */
    method KillPlayer(i: nat, ownerId: string)
      requires i < |players|
      modifies this
      ensures Snapshot() == Kill(old(Snapshot()), i, ownerId)
    {
      ghost var r := Snapshot();
      var p := players[i].(alive := false);
      players := players[i := p];
      if ownerId != p.id {
        CreditKill(ownerId);
      }
      assert Snapshot() == r.(players := if ownerId != p.id then Credit(r.players[i := p], ownerId) else r.players[i := p]);
      CheckWinCondition();
    }

    /** The owner's credit in `createExplosionCell`: one more kill, when the
        owner is still in the room. */
    method CreditKill(ownerId: string)
      modifies this
      ensures Snapshot() == old(Snapshot()).(players := Credit(old(players), ownerId))
    {
      var killer := Find(players, ownerId);
      if killer.Some? {
        var k := killer.value;
        players := players[k := players[k].(kills := players[k].kills + 1)];
      }
    }

    /** One direction of `explodeBomb`: the inner `for` loop. */
    method BlastRay(bomb: Bomb, d: Delta)
      requires WellFormed(grid)
      modifies this
      ensures WellFormed(grid)
      ensures Snapshot() == Ray(old(Snapshot()), bomb, d)
    {
      ghost var start := Snapshot();
      var i := 1;
      while i <= bomb.range
        invariant WellFormed(grid) && 1 <= i <= Reach(bomb) + 1
        invariant (Snapshot(), false) == RayUpTo(start, bomb, d, i - 1)
        decreases bomb.range - i + 1
      {
        RayGoesOnStep(start, bomb, d, i);
        var stop := BlastCell(bomb, d, i);
        if stop {
          RayStops(start, bomb, d, i, Reach(bomb));
          return;
        }
        i := i + 1;
      }
    }

    /** Step i of a ray: stop at a wall; otherwise explode the cell, and
        stop after clearing a soft block. */
    method BlastCell(bomb: Bomb, d: Delta, i: int) returns (stop: bool)
      requires WellFormed(grid)
      modifies this
      ensures WellFormed(grid)
      ensures (Snapshot(), stop) == RayStep(old(Snapshot()), bomb, d, i)
    {
      var tx := bomb.x + d.dx * i;
      var ty := bomb.y + d.dy * i;
      if IsWall(grid, tx, ty) {
        return true;
      }
      CreateExplosionCell(tx, ty, bomb.ownerId);
      if IsSoftBlock(grid, tx, ty) {
        grid := SetCell(grid, tx, ty, Empty);
        return true;
      }
      return false;
    }

    method ExplodeBomb(bomb: Bomb)
      requires WellFormed(grid)
      modifies this
      ensures WellFormed(grid)
      ensures Snapshot() == Explode(old(Snapshot()), bomb)
    {
      CreateExplosionCell(bomb.x, bomb.y, bomb.ownerId);
      BlastRays(bomb);
    }

    /** The `forEach` over the four directions of `explodeBomb`. */
    method BlastRays(bomb: Bomb)
      requires WellFormed(grid)
      modifies this
      ensures WellFormed(grid)
      ensures Snapshot() == RaysUpTo(old(Snapshot()), bomb, |Directions|)
    {
      ghost var centre := Snapshot();
      var k := 0;
      while k < |Directions|
        invariant WellFormed(grid) && 0 <= k <= |Directions|
        invariant Snapshot() == RaysUpTo(centre, bomb, k)
        decreases |Directions| - k
      {
        ghost var before := Snapshot();
        BlastRay(bomb, Directions[k]);
        assert RaysUpTo(centre, bomb, k + 1) == Ray(before, bomb, Directions[k]);
        k := k + 1;
      }
    }

    method Update(dt: int, now: int)
      requires Valid()
      modifies this
      ensures Snapshot() == Rules.Update(old(Snapshot()), dt, now)
      ensures Valid()
      ensures old(gameState) == Playing ==> bombs == RulesProofs.Burned(old(bombs), dt)
      ensures RulesProofs.Judged(old(Snapshot()), Snapshot())
    {
      RulesProofs.UpdateJudged(Snapshot(), dt, now);
      if gameState != Playing { return; }
      RulesProofs.UpdateSpec(Snapshot(), dt, now);
      TickBombs(dt);
      FadeExplosions(dt);
      if now - matchStartTime > suddenDeathTimer {
        ApplySuddenDeath(now);
      }
    }

    /** The first loop of `update`: bombs from last to first. */
    method TickBombs(dt: int)
      requires WellFormed(grid) && DistinctIds(players)
      modifies this
      ensures Snapshot() == TickBombsDown(old(Snapshot()), dt, 0)
      ensures bombs == RulesProofs.Burned(old(bombs), dt)
    {
      ghost var start := Snapshot();
      RulesProofs.TickBombsDownBombs(start, dt, 0);
      assert start.bombs[0..] == start.bombs;
      var i := |bombs| - 1;
      while i >= 0
        invariant -1 <= i < |start.bombs|
        invariant Snapshot() == TickBombsDown(start, dt, i + 1)
        decreases i
      {
        TickBombsDownStep(start, dt, i);
        TickBomb(i, dt);
        i := i - 1;
      }
    }

    /** The body of the bomb loop of `update`. */
    method TickBomb(i: nat, dt: int)
      requires WellFormed(grid) && i < |bombs|
      modifies this
      ensures Snapshot() == Rules.TickBomb(old(Snapshot()), dt, i)
    {
      ghost var r := Snapshot();
      var bomb := bombs[i].(timer := bombs[i].timer - dt);
      bombs := bombs[i := bomb];
      ghost var s1 := Snapshot();
      assert s1 == Burn(r, dt, i);
      if bomb.timer <= 0 {
        DetonateBomb(i);
      }
    }

    /** The detonation branch of the bomb loop of `update`. */
    method DetonateBomb(i: nat)
      requires WellFormed(grid) && i < |bombs|
      modifies this
      ensures Snapshot() == Detonate(old(Snapshot()), i)
    {
      var bomb := bombs[i];
      ExplodeBomb(bomb);
      bombs := bombs[..i] + bombs[i + 1..];
      ReturnBomb(bomb.ownerId);
    }

    /** The owner of a detonated bomb, if still in the room, may place one more. */
    method ReturnBomb(ownerId: string)
      modifies this
      ensures Snapshot() == old(Snapshot()).(players := Release(old(players), ownerId))
    {
      var owner := Find(players, ownerId);
      if owner.Some? {
        var k := owner.value;
        players := players[k := players[k].(activeBombs := players[k].activeBombs - 1)];
      }
    }

    /** The second loop of `update`: explosions from last to first. */
    method FadeExplosions(dt: int)
      modifies this
      ensures Snapshot() == old(Snapshot()).(explosions := FadeDown(old(explosions), dt, 0))
      ensures explosions == RulesProofs.Faded(old(explosions), dt)
    {
      RulesProofs.FadeAll(explosions, dt);
      var i := |explosions| - 1;
      while i >= 0
        invariant -1 <= i < |old(explosions)|
        invariant Snapshot() == old(Snapshot()).(explosions := FadeDown(old(explosions), dt, i + 1))
        decreases i
      {
        explosions := explosions[i := explosions[i].(timer := explosions[i].timer - dt)];
        if explosions[i].timer <= ExplosionFade {
          explosions := explosions[..i] + explosions[i + 1..];
        }
        i := i - 1;
      }
    }

    method ApplySuddenDeath(now: int)
      requires WellFormed(grid)
      modifies this
      ensures Snapshot() == Rules.ApplySuddenDeath(old(Snapshot()), now)
    {
      if now - lastSuddenDeathTick < SuddenDeathPeriod { return; }
      lastSuddenDeathTick := now;

      var coords := Spiral.GetSuddenDeathCoords(suddenDeathIndex);
      if coords.Some? {
        var x, y := coords.value.x, coords.value.y;
        Spiral.SpiralInGrid(suddenDeathIndex);
        grid := SetCell(grid, x, y, Wall);
        CrushPlayers(x, y);
        suddenDeathIndex := suddenDeathIndex + 1;
      }
    }

    /** The `forEach` of `applySuddenDeath`: whoever stands on the new wall dies. */
    method CrushPlayers(x: int, y: int)
      modifies this
      ensures Snapshot() == CrushUpTo(old(Snapshot()), x, y, |old(players)|)
    {
      var i := 0;
      while i < |players|
        invariant i <= |old(players)|
        invariant Snapshot() == CrushUpTo(old(Snapshot()), x, y, i)
        decreases |players| - i
      {
        var player := players[i];
        if player.alive && Round(player.x) == x && Round(player.y) == y {
          players := players[i := player.(alive := false)];
          CheckWinCondition();
        }
        i := i + 1;
      }
    }
  }
}
