/** What the room operations of Rules guarantee (server/game/GameRoom.js):
    who dies and who is credited in a blast, the shape of a blast, the
    sudden-death step, the invariants every operation keeps, and the
    behaviours of the source that run against its evident intent. */
module RulesProofs {
  import opened Opt
  import opened Grid
  import opened Roster
  import opened Rules
  import Spiral

  // ----------------------------------------------------------------------
  // Deaths and kill credit

  /** What a blast may do to a room: players die and never come back, only
      the kill counter of player `ownerId` may change and only upwards,
      nothing else about any player changes, and the game can only end. */
  predicate Fated(r: Room, r': Room, ownerId: string) {
    OnlyFate(r.players, r'.players) &&
    (forall i | 0 <= i < |r.players| && r.players[i].id != ownerId :: r'.players[i].kills == r.players[i].kills) &&
    (r'.gameState == r.gameState || r'.gameState == Ended)
  }

  lemma FatedTrans(a: Room, b: Room, c: Room, ownerId: string)
    requires Fated(a, b, ownerId) && Fated(b, c, ownerId)
    ensures Fated(a, c, ownerId)
  {
    assert forall i | 0 <= i < |a.players| :: b.players[i].id == a.players[i].id;
  }

  /** `checkWinCondition` ends the game exactly when at most one of more than
      one player is alive, and names the first survivor in join order. */
  lemma CheckWinConditionSpec(r: Room)
    ensures var r' := CheckWinCondition(r);
      (AliveCount(r.players) <= 1 && |r.players| > 1 ==> r'.gameState == Ended && r'.winner == FirstAliveId(r.players)) &&
      (!(AliveCount(r.players) <= 1 && |r.players| > 1) ==> r' == r)
  {
  }

  /** With distinct keys the credit goes to the one record with the owner's key. */
  lemma CreditAt(ps: Players, ownerId: string, j: nat)
    requires DistinctIds(ps) && j < |ps|
    ensures Credit(ps, ownerId)[j] == ps[j].(kills := ps[j].kills + if ps[j].id == ownerId then 1 else 0)
  {
    if ps[j].id == ownerId {
      FindAt(ps, j);
    }
  }

  /** The record changes of one death on a blast cell. */
  lemma {:induction false} SlayRecords(ps: Players, i: nat, ownerId: string)
    requires DistinctIds(ps) && i < |ps|
    ensures var ps1 := ps[i := ps[i].(alive := false)];
      var ps2 := if ownerId != ps[i].id then Credit(ps1, ownerId) else ps1;
      |ps2| == |ps| &&
      forall j | 0 <= j < |ps| ::
        ps2[j] == ps[j].(alive := ps[j].alive && j != i,
                         kills := ps[j].kills + if ownerId != ps[i].id && ps[j].id == ownerId then 1 else 0)
  {
    var p := ps[i].(alive := false);
    var ps1 := ps[i := p];
    if ownerId != p.id {
      IdsUpdate(ps, i, p);
      SameIdsDistinct(ps, ps1);
      forall j | 0 <= j < |ps| ensures Credit(ps1, ownerId)[j] == ps1[j].(kills := ps1[j].kills + if ps1[j].id == ownerId then 1 else 0) {
        CreditAt(ps1, ownerId, j);
      }
    }
  }

  /** One death on a blast cell: the victim dies, the owner gains one kill
      when the victim is someone else and the owner is still in the room,
      and the game is checked for a winner. */
  lemma KillSpec(r: Room, i: nat, ownerId: string)
    requires DistinctIds(r.players) && i < |r.players|
    ensures Slain(r, Kill(r, i, ownerId), i, ownerId)
  {
    var ps1 := r.players[i := r.players[i].(alive := false)];
    var ps2 := if ownerId != r.players[i].id then Credit(ps1, ownerId) else ps1;
    SlayRecords(r.players, i, ownerId);
    var r' := Kill(r, i, ownerId);
    assert r'.players == ps2 && (r'.gameState == r.gameState || r'.gameState == Ended);
    assert OnlyFate(r.players, ps2);
  }

  /** What one kill does: only fates change, player i and nobody else dies,
      and the owner gains a kill unless it killed itself. */
  predicate Slain(r: Room, r': Room, i: nat, ownerId: string)
    requires i < |r.players|
  {
    Fated(r, r', ownerId) &&
    (forall j | 0 <= j < |r.players| :: r'.players[j].alive == (r.players[j].alive && j != i)) &&
    (forall j | 0 <= j < |r.players| && r.players[j].id == ownerId ::
      r'.players[j].kills == r.players[j].kills + if r.players[i].id != ownerId then 1 else 0)
  }

  /** The number of living players other than `ownerId` on cell (x, y) among
      the first n of the map. */
  function Victims(ps: Players, x: int, y: int, ownerId: string, n: nat): nat
    requires n <= |ps|
  {
    if n == 0 then 0
    else
      var hit := if ps[n - 1].alive && OnCell(ps[n - 1], x, y) && ps[n - 1].id != ownerId then 1 else 0;
      Victims(ps, x, y, ownerId, n - 1) + hit
  }

  /** What the first n passes of the `forEach` of `createExplosionCell`
      leave behind: only fates changed, exactly the living players among the
      first n standing on (x, y) died, and the owner gained one kill per
      victim other than itself. */
  predicate Struck(r: Room, r': Room, x: int, y: int, ownerId: string, n: nat)
    requires n <= |r.players|
  {
    Fated(r, r', ownerId) &&
    (forall i | 0 <= i < |r.players| ::
      r'.players[i].alive == (r.players[i].alive && !(i < n && OnCell(r.players[i], x, y)))) &&
    (forall i | 0 <= i < |r.players| && r.players[i].id == ownerId ::
      r'.players[i].kills == r.players[i].kills + Victims(r.players, x, y, ownerId, n))
  }

  /** One more pass of that `forEach` keeps `Struck` with one more index. */
  lemma StruckStep(r: Room, s: Room, x: int, y: int, ownerId: string, n: nat)
    requires DistinctIds(r.players) && 0 < n <= |r.players| && Struck(r, s, x, y, ownerId, n - 1)
    ensures Struck(r, StrikeStep(s, x, y, ownerId, n - 1), x, y, ownerId, n)
  {
    if s.players[n - 1].alive && OnCell(s.players[n - 1], x, y) {
      FateKeepsDistinct(r.players, s.players);
      KillSpec(s, n - 1, ownerId);
      StruckAfterKill(r, s, Kill(s, n - 1, ownerId), x, y, ownerId, n);
    } else {
      StruckSkip(r, s, x, y, ownerId, n);
    }
  }

  /** Changing only fates keeps the keys distinct. */
  lemma FateKeepsDistinct(ps: Players, qs: Players)
    requires DistinctIds(ps) && OnlyFate(ps, qs)
    ensures DistinctIds(qs)
  {
    assert forall i | 0 <= i < |qs| :: qs[i].id == ps[i].id;
  }

  /** `Struck` carried over a kill of player n - 1, given what `KillSpec`
      says of that kill. */
  lemma StruckAfterKill(r: Room, s: Room, k: Room, x: int, y: int, ownerId: string, n: nat)
    requires 0 < n <= |r.players| && Struck(r, s, x, y, ownerId, n - 1)
    requires s.players[n - 1].alive && OnCell(s.players[n - 1], x, y)
    requires Slain(s, k, n - 1, ownerId)
    ensures Struck(r, k, x, y, ownerId, n)
  {
    var p := r.players[n - 1];
    assert s.players[n - 1] == p.(alive := s.players[n - 1].alive, kills := s.players[n - 1].kills);
    assert p.alive && OnCell(p, x, y);
    FatedTrans(r, s, k, ownerId);
    forall i | 0 <= i < |r.players|
      ensures k.players[i].alive == (r.players[i].alive && !(i < n && OnCell(r.players[i], x, y)))
    {
    }
    forall i | 0 <= i < |r.players| && r.players[i].id == ownerId
      ensures k.players[i].kills == r.players[i].kills + Victims(r.players, x, y, ownerId, n)
    {
      assert s.players[i].id == r.players[i].id;
    }
  }

  /** The pass that leaves player n - 1 alone. */
  lemma StruckSkip(r: Room, s: Room, x: int, y: int, ownerId: string, n: nat)
    requires 0 < n <= |r.players| && Struck(r, s, x, y, ownerId, n - 1)
    requires !(s.players[n - 1].alive && OnCell(s.players[n - 1], x, y))
    ensures Struck(r, s, x, y, ownerId, n)
  {
    var p := r.players[n - 1];
    assert s.players[n - 1] == p.(alive := s.players[n - 1].alive, kills := s.players[n - 1].kills);
    assert !(p.alive && OnCell(p, x, y));
  }

  /** The `forEach` of `createExplosionCell` after its first n passes. */
  lemma {:induction false} StrikeUpToSpec(r: Room, x: int, y: int, ownerId: string, n: nat)
    requires DistinctIds(r.players) && n <= |r.players|
    ensures Struck(r, StrikeUpTo(r, x, y, ownerId, n), x, y, ownerId, n)
    decreases n
  {
    if n == 0 {
      assert forall i | 0 <= i < |r.players| :: r.players[i] == r.players[i].(alive := r.players[i].alive, kills := r.players[i].kills);
    } else {
      StrikeUpToSpec(r, x, y, ownerId, n - 1);
      StruckStep(r, StrikeUpTo(r, x, y, ownerId, n - 1), x, y, ownerId, n);
    }
  }

  /** `createExplosionCell(x, y, ownerId)`: one blast cell is added, every
      living player standing on it dies and nobody else, and the owner, if
      still in the room, is credited one kill per victim other than itself. */
  lemma StrikeSpec(r: Room, x: int, y: int, ownerId: string)
    requires DistinctIds(r.players)
    ensures var r' := Strike(r, x, y, ownerId);
      Fated(r, r', ownerId) &&
      r'.explosions == r.explosions + [Explosion(x, y, ExplosionLife)] &&
      (forall i | 0 <= i < |r.players| ::
        r'.players[i].alive == (r.players[i].alive && !OnCell(r.players[i], x, y))) &&
      (forall i | 0 <= i < |r.players| && r.players[i].id == ownerId ::
        r'.players[i].kills == r.players[i].kills + Victims(r.players, x, y, ownerId, |r.players|)) &&
      Judged(r, r')
  {
    var r0 := r.(explosions := r.explosions + [Explosion(x, y, ExplosionLife)]);
    StrikeUpToSpec(r0, x, y, ownerId, |r0.players|);
    StrikeJudged(r, x, y, ownerId);
  }

  /** A blast started by a player who has left credits nobody. */
  lemma OrphanStrikeNoCredit(r: Room, x: int, y: int, ownerId: string)
    requires DistinctIds(r.players) && !Has(r.players, ownerId)
    ensures var r' := Strike(r, x, y, ownerId);
      forall i | 0 <= i < |r.players| :: r'.players[i].kills == r.players[i].kills
  {
    StrikeSpec(r, x, y, ownerId);
  }

  // ----------------------------------------------------------------------
  // The end of a game after deaths

  /** What the win checks that follow each death leave behind: the same
      players in the same order, changed by deaths only, and the game ended
      with the first survivor (or nobody) as winner exactly when somebody died
      and at most one of more than one player is left alive; otherwise the
      state and the winner are as before. */
  predicate Judged(r: Room, r': Room) {
    Mortal(r.players, r'.players) &&
    var ends := AliveCount(r'.players) < AliveCount(r.players) && |r.players| > 1 && AliveCount(r'.players) <= 1;
    (ends ==> r'.gameState == Ended && r'.winner == FirstAliveId(r'.players)) &&
    (!ends ==> r'.gameState == r.gameState && r'.winner == r.winner)
  }

  /** Two rounds of deaths judge as one: the check at the last death decides. */
  lemma JudgedTrans(a: Room, b: Room, c: Room)
    requires Judged(a, b) && Judged(b, c)
    ensures Judged(a, c)
  {
    AliveCountMortal(a.players, b.players);
    AliveCountMortal(b.players, c.players);
    if AliveCount(c.players) == AliveCount(b.players) {
      FirstAliveSame(b.players, c.players);
    }
  }

  /** A death on a blast cell followed by `checkWinCondition`: the game ends
      exactly when at most one of more than one player survives it, and the
      first survivor wins. */
  lemma KillJudged(r: Room, i: nat, ownerId: string)
    requires DistinctIds(r.players) && i < |r.players| && r.players[i].alive
    ensures Judged(r, Kill(r, i, ownerId))
  {
    var p := r.players[i].(alive := false);
    var ps1 := r.players[i := p];
    var ps2 := if ownerId != p.id then Credit(ps1, ownerId) else ps1;
    SlayRecords(r.players, i, ownerId);
    AliveCountKill(r.players, i, p);
    assert forall j | 0 <= j < |ps1| :: ps1[j].alive == ps2[j].alive;
    AliveCountSameFlags(ps1, ps2);
    OneDeathJudged(r, ps2);
    assert Kill(r, i, ownerId) == CheckWinCondition(r.(players := ps2));
  }

  /** One death, whatever else changes about the records, followed by
      `checkWinCondition`. */
  lemma OneDeathJudged(r: Room, qs: Players)
    requires Mortal(r.players, qs) && AliveCount(qs) == AliveCount(r.players) - 1
    ensures Judged(r, CheckWinCondition(r.(players := qs)))
  {
    CheckWinConditionSpec(r.(players := qs));
  }

  lemma StrikeStepJudged(r: Room, x: int, y: int, ownerId: string, i: nat)
    requires DistinctIds(r.players) && i < |r.players|
    ensures Judged(r, StrikeStep(r, x, y, ownerId, i))
  {
    if r.players[i].alive && OnCell(r.players[i], x, y) {
      KillJudged(r, i, ownerId);
    }
  }

  lemma {:induction false} StrikeUpToJudged(r: Room, x: int, y: int, ownerId: string, n: nat)
    requires DistinctIds(r.players) && n <= |r.players|
    ensures Judged(r, StrikeUpTo(r, x, y, ownerId, n))
    decreases n
  {
    if n > 0 {
      var s := StrikeUpTo(r, x, y, ownerId, n - 1);
      StrikeUpToJudged(r, x, y, ownerId, n - 1);
      SameIdsDistinct(r.players, s.players);
      StrikeStepJudged(s, x, y, ownerId, n - 1);
      JudgedTrans(r, s, StrikeUpTo(r, x, y, ownerId, n));
    }
  }

  /** `createExplosionCell` ends the game as its last death's check says. */
  lemma StrikeJudged(r: Room, x: int, y: int, ownerId: string)
    requires DistinctIds(r.players)
    ensures Judged(r, Strike(r, x, y, ownerId))
  {
    var r0 := r.(explosions := r.explosions + [Explosion(x, y, ExplosionLife)]);
    StrikeUpToJudged(r0, x, y, ownerId, |r0.players|);
  }

  /** A step of a ray touches the players, the game state and the winner
      only through its blast cell. */
  lemma RayStepPlayers(r: Room, b: Bomb, d: Delta, i: int)
    requires WellFormed(r.grid)
    ensures var c := Cell(b, d, i);
      var r' := RayStep(r, b, d, i).0;
      var s := if IsWall(r.grid, c.0, c.1) then r else Strike(r, c.0, c.1, b.ownerId);
      r'.players == s.players && r'.gameState == s.gameState && r'.winner == s.winner
  {
  }

  lemma RayStepJudged(r: Room, b: Bomb, d: Delta, i: int)
    requires WellFormed(r.grid) && DistinctIds(r.players)
    ensures Judged(r, RayStep(r, b, d, i).0)
  {
    var c := Cell(b, d, i);
    RayStepPlayers(r, b, d, i);
    if !IsWall(r.grid, c.0, c.1) {
      StrikeJudged(r, c.0, c.1, b.ownerId);
    } else {
      JudgedSameFlags(r, r);
    }
  }

  /** A further step of a ray keeps `Judged` from the room before the ray. */
  lemma RayJudgedStep(r: Room, s: Room, b: Bomb, d: Delta, n: nat)
    requires WellFormed(s.grid) && DistinctIds(r.players) && Ids(s.players) == Ids(r.players)
    requires Judged(r, s)
    ensures Judged(r, RayStep(s, b, d, n).0)
  {
    SameIdsDistinct(r.players, s.players);
    RayStepJudged(s, b, d, n);
    JudgedTrans(r, s, RayStep(s, b, d, n).0);
  }

  lemma {:induction false} RayUpToJudged(r: Room, b: Bomb, d: Delta, n: nat)
    requires WellFormed(r.grid) && DistinctIds(r.players)
    ensures Judged(r, RayUpTo(r, b, d, n).0)
    decreases n
  {
    if n > 0 {
      var prev := RayUpTo(r, b, d, n - 1);
      RayUpToJudged(r, b, d, n - 1);
      if !prev.1 {
        RayJudgedStep(r, prev.0, b, d, n);
        assert RayUpTo(r, b, d, n) == RayStep(prev.0, b, d, n);
      } else {
        assert RayUpTo(r, b, d, n) == prev;
      }
    }
  }

  lemma RayJudged(r: Room, b: Bomb, d: Delta)
    requires WellFormed(r.grid) && DistinctIds(r.players)
    ensures Judged(r, Ray(r, b, d))
  {
    RayUpToJudged(r, b, d, Reach(b));
  }

  lemma {:induction false} RaysUpToJudged(r: Room, b: Bomb, k: nat)
    requires WellFormed(r.grid) && DistinctIds(r.players) && k <= |Directions|
    ensures Judged(r, RaysUpTo(r, b, k))
    decreases k
  {
    if k > 0 {
      var s := RaysUpTo(r, b, k - 1);
      RaysUpToJudged(r, b, k - 1);
      SameIdsDistinct(r.players, s.players);
      RayJudged(s, b, Directions[k - 1]);
      JudgedTrans(r, s, RaysUpTo(r, b, k));
    }
  }

  /** `explodeBomb` ends the game as the check at its last death says. */
  lemma ExplodeJudged(r: Room, b: Bomb)
    requires WellFormed(r.grid) && DistinctIds(r.players)
    ensures Judged(r, Explode(r, b))
  {
    var s := Strike(r, b.x, b.y, b.ownerId);
    StrikeJudged(r, b.x, b.y, b.ownerId);
    SameIdsDistinct(r.players, s.players);
    RaysUpToJudged(s, b, |Directions|);
    JudgedTrans(r, s, Explode(r, b));
  }

  /** A death under a sudden-death wall, followed by `checkWinCondition`. */
  lemma CrushStepJudged(r: Room, x: int, y: int, i: nat)
    requires i < |r.players|
    ensures Judged(r, CrushStep(r, x, y, i))
  {
    if r.players[i].alive && OnCell(r.players[i], x, y) {
      var p := r.players[i].(alive := false);
      AliveCountKill(r.players, i, p);
      OneDeathJudged(r, r.players[i := p]);
    }
  }

  lemma {:induction false} CrushUpToJudged(r: Room, x: int, y: int, n: nat)
    requires n <= |r.players|
    ensures Judged(r, CrushUpTo(r, x, y, n))
    decreases n
  {
    if n > 0 {
      var s := CrushUpTo(r, x, y, n - 1);
      CrushUpToJudged(r, x, y, n - 1);
      CrushStepJudged(s, x, y, n - 1);
      JudgedTrans(r, s, CrushUpTo(r, x, y, n));
    }
  }

  /** `applySuddenDeath` ends the game as the check at its last death says. */
  lemma SuddenDeathJudged(r: Room, now: int)
    requires WellFormed(r.grid)
    ensures Judged(r, ApplySuddenDeath(r, now))
  {
    if now - r.lastSuddenDeathTick >= SuddenDeathPeriod {
      match Spiral.SpiralAt(r.suddenDeathIndex)
      case None =>
      case Some(c) =>
        Spiral.SpiralInGrid(r.suddenDeathIndex);
        var r2 := r.(lastSuddenDeathTick := now, grid := SetCell(r.grid, c.x, c.y, Wall));
        CrushUpToJudged(r2, c.x, c.y, |r2.players|);
    }
  }

  // ----------------------------------------------------------------------
  // The shape of a blast

  /** The cell i steps from the bomb in direction d. */
  function Cell(b: Bomb, d: Delta, i: int): (int, int) {
    (b.x + d.dx * i, b.y + d.dy * i)
  }

  /** A cell that ends a ray: a wall, the outside, or a soft block. */
  predicate Blocks(g: Cells, c: (int, int))
    requires WellFormed(g)
  {
    IsWall(g, c.0, c.1) || IsSoftBlock(g, c.0, c.1)
  }

  /** The first of steps 1 to n whose cell ends the ray, or n + 1 when none
      does. */
  function FirstBlock(g: Cells, b: Bomb, d: Delta, n: nat): (f: nat)
    requires WellFormed(g)
    ensures 1 <= f <= n + 1
    ensures forall i | 1 <= i < f :: !Blocks(g, Cell(b, d, i))
    ensures f <= n ==> Blocks(g, Cell(b, d, f))
    decreases n
  {
    if n == 0 then 1
    else
      var f := FirstBlock(g, b, d, n - 1);
      if f < n then f else if Blocks(g, Cell(b, d, n)) then n else n + 1
  }

  /** How many of steps 1 to n get a blast cell: those before the cell that
      ends the ray, and that cell too when it is a soft block. */
  function Covered(g: Cells, b: Bomb, d: Delta, n: nat): (k: nat)
    requires WellFormed(g)
    ensures k <= n
  {
    var f := FirstBlock(g, b, d, n);
    if f > n then n else if IsWall(g, Cell(b, d, f).0, Cell(b, d, f).1) then f - 1 else f
  }

  /** The blast cells of steps 1 to k of a ray, in order. */
  function Line(b: Bomb, d: Delta, k: nat): (es: seq<Explosion>)
    ensures |es| == k
  {
    if k == 0 then [] else Line(b, d, k - 1) + [Explosion(Cell(b, d, k).0, Cell(b, d, k).1, ExplosionLife)]
  }

  lemma {:induction false} LineAt(b: Bomb, d: Delta, k: nat, i: nat)
    requires 1 <= i <= k
    ensures Line(b, d, k)[i - 1] == Explosion(Cell(b, d, i).0, Cell(b, d, i).1, ExplosionLife)
    decreases k
  {
    if i < k {
      LineAt(b, d, k - 1, i);
    }
  }

  /** The grid after a ray: the soft block that ended it, if any, is cleared. */
  function RayGrid(g: Cells, b: Bomb, d: Delta, n: nat): Cells
    requires WellFormed(g)
  {
    var f := FirstBlock(g, b, d, n);
    var c := Cell(b, d, f);
    if f <= n && IsSoftBlock(g, c.0, c.1) then SetCell(g, c.0, c.1, Empty) else g
  }

  /** Step i of a ray: it breaks at a stopping cell, adds a blast cell unless
      the cell is a wall or outside, and clears a soft block. */
  lemma RayStepShape(r: Room, b: Bomb, d: Delta, i: int)
    requires WellFormed(r.grid)
    ensures var res := RayStep(r, b, d, i); var c := Cell(b, d, i);
      res.1 == Blocks(r.grid, c) &&
      res.0.explosions == r.explosions + (if IsWall(r.grid, c.0, c.1) then [] else [Explosion(c.0, c.1, ExplosionLife)]) &&
      res.0.grid == if IsSoftBlock(r.grid, c.0, c.1) then SetCell(r.grid, c.0, c.1, Empty) else r.grid
  {
  }

  /** A ray that has not stopped within n - 1 steps is decided by step n. */
  lemma RayGoesOn(g: Cells, b: Bomb, d: Delta, n: nat)
    requires WellFormed(g) && n >= 1 && FirstBlock(g, b, d, n - 1) == n
    ensures var c := Cell(b, d, n);
      FirstBlock(g, b, d, n) == (if Blocks(g, c) then n else n + 1) &&
      Covered(g, b, d, n) == (if IsWall(g, c.0, c.1) then n - 1 else n) &&
      Covered(g, b, d, n - 1) == n - 1 &&
      RayGrid(g, b, d, n - 1) == g &&
      RayGrid(g, b, d, n) == (if IsSoftBlock(g, c.0, c.1) then SetCell(g, c.0, c.1, Empty) else g)
  {
  }

  /** A ray that stopped within n - 1 steps stays as it was. */
  lemma RayStopped(g: Cells, b: Bomb, d: Delta, n: nat)
    requires WellFormed(g) && n >= 1 && FirstBlock(g, b, d, n - 1) < n
    ensures FirstBlock(g, b, d, n) == FirstBlock(g, b, d, n - 1)
    ensures Covered(g, b, d, n) == Covered(g, b, d, n - 1)
    ensures RayGrid(g, b, d, n) == RayGrid(g, b, d, n - 1)
  {
  }

  /** What n steps of a ray's `for` loop leave behind: the loop has broken
      exactly when a stopping cell was met, the blast cells are those of the
      covered steps, and only a soft block that stopped the ray was cleared. */
  predicate Shaped(r: Room, res: (Room, bool), b: Bomb, d: Delta, n: nat)
    requires WellFormed(r.grid)
  {
    res.1 == (FirstBlock(r.grid, b, d, n) <= n) &&
    res.0.explosions == r.explosions + Line(b, d, Covered(r.grid, b, d, n)) &&
    res.0.grid == RayGrid(r.grid, b, d, n)
  }

  /** Once broken, the loop keeps its shape through step n. */
  lemma ShapedStopped(r: Room, prev: (Room, bool), b: Bomb, d: Delta, n: nat)
    requires WellFormed(r.grid) && n >= 1 && prev.1 && Shaped(r, prev, b, d, n - 1)
    ensures Shaped(r, prev, b, d, n)
  {
    RayStopped(r.grid, b, d, n);
  }

  /** A loop that has not broken takes step n. */
  lemma ShapedGoesOn(r: Room, prev: (Room, bool), b: Bomb, d: Delta, n: nat)
    requires WellFormed(r.grid) && WellFormed(prev.0.grid) && n >= 1
    requires !prev.1 && Shaped(r, prev, b, d, n - 1)
    ensures Shaped(r, RayStep(prev.0, b, d, n), b, d, n)
  {
    RayStepShape(prev.0, b, d, n);
    ShapedAfterStep(r, prev, RayStep(prev.0, b, d, n), b, d, n);
  }

  /** `Shaped` carried over step n, given what `RayStepShape` says of it. */
  lemma ShapedAfterStep(r: Room, prev: (Room, bool), res: (Room, bool), b: Bomb, d: Delta, n: nat)
    requires WellFormed(r.grid) && WellFormed(prev.0.grid) && n >= 1
    requires !prev.1 && Shaped(r, prev, b, d, n - 1)
    requires var c := Cell(b, d, n);
      res.1 == Blocks(prev.0.grid, c) &&
      res.0.explosions == prev.0.explosions + (if IsWall(prev.0.grid, c.0, c.1) then [] else [Explosion(c.0, c.1, ExplosionLife)]) &&
      res.0.grid == if IsSoftBlock(prev.0.grid, c.0, c.1) then SetCell(prev.0.grid, c.0, c.1, Empty) else prev.0.grid
    ensures Shaped(r, res, b, d, n)
  {
    var g := r.grid;
    var c := Cell(b, d, n);
    assert FirstBlock(g, b, d, n - 1) == n;
    RayGoesOn(g, b, d, n);
    assert prev.0.grid == g;
    if !IsWall(g, c.0, c.1) {
      var e := Explosion(c.0, c.1, ExplosionLife);
      assert Line(b, d, n) == Line(b, d, n - 1) + [e];
      assert r.explosions + Line(b, d, n) == (r.explosions + Line(b, d, n - 1)) + [e];
    }
  }

  /** One direction of `explodeBomb` after n steps of its `for` loop. */
  lemma {:induction false} RayUpToShape(r: Room, b: Bomb, d: Delta, n: nat)
    requires WellFormed(r.grid)
    ensures Shaped(r, RayUpTo(r, b, d, n), b, d, n)
    decreases n
  {
    if n > 0 {
      var prev := RayUpTo(r, b, d, n - 1);
      RayUpToShape(r, b, d, n - 1);
      if prev.1 {
        ShapedStopped(r, prev, b, d, n);
      } else {
        ShapedGoesOn(r, prev, b, d, n);
      }
    }
  }

  /** A blast cell only kills and credits. */
  lemma StrikeFated(r: Room, x: int, y: int, ownerId: string)
    requires DistinctIds(r.players)
    ensures Fated(r, Strike(r, x, y, ownerId), ownerId)
  {
    StrikeSpec(r, x, y, ownerId);
  }

  /** A step of a ray only kills and credits as a blast cell does. */
  lemma RayStepFated(r: Room, b: Bomb, d: Delta, i: int)
    requires WellFormed(r.grid) && DistinctIds(r.players)
    ensures Fated(r, RayStep(r, b, d, i).0, b.ownerId)
  {
    var c := Cell(b, d, i);
    RayStepPlayers(r, b, d, i);
    if !IsWall(r.grid, c.0, c.1) {
      StrikeFated(r, c.0, c.1, b.ownerId);
    }
  }

  /** A further step of a ray keeps the fates of a room as a blast would. */
  lemma RayFatedStep(r: Room, s: Room, b: Bomb, d: Delta, n: nat)
    requires WellFormed(s.grid) && DistinctIds(r.players) && Ids(s.players) == Ids(r.players)
    requires Fated(r, s, b.ownerId)
    ensures Fated(r, RayStep(s, b, d, n).0, b.ownerId)
  {
    SameIdsDistinct(r.players, s.players);
    RayStepFated(s, b, d, n);
    FatedTrans(r, s, RayStep(s, b, d, n).0, b.ownerId);
  }

  lemma {:induction false} RayUpToFated(r: Room, b: Bomb, d: Delta, n: nat)
    requires WellFormed(r.grid) && DistinctIds(r.players)
    ensures Fated(r, RayUpTo(r, b, d, n).0, b.ownerId)
    decreases n
  {
    if n > 0 {
      var prev := RayUpTo(r, b, d, n - 1);
      RayUpToFated(r, b, d, n - 1);
      if !prev.1 {
        RayFatedStep(r, prev.0, b, d, n);
        assert RayUpTo(r, b, d, n) == RayStep(prev.0, b, d, n);
      } else {
        assert RayUpTo(r, b, d, n) == prev;
      }
    }
  }

  /** The four arms of a bomb's blast up to its range, without its own cell. */
  predicate OnArms(b: Bomb, x: int, y: int) {
    (x == b.x && 1 <= y - b.y <= Reach(b)) || (x == b.x && 1 <= b.y - y <= Reach(b)) ||
    (y == b.y && 1 <= x - b.x <= Reach(b)) || (y == b.y && 1 <= b.x - x <= Reach(b))
  }

  /** A blast cell on the arms of b, inside the grid and not on a wall of g. */
  predicate ArmCell(g: Cells, b: Bomb, e: Explosion)
    requires WellFormed(g)
  {
    OnArms(b, e.x, e.y) && InGrid(e.x, e.y) && g[e.y][e.x] != Wall && e.timer == ExplosionLife
  }

  /** g' is g with some soft blocks on the arms of b cleared, and nothing else changed. */
  ghost predicate ClearedOnArms(g: Cells, g': Cells, b: Bomb)
    requires WellFormed(g) && WellFormed(g')
  {
    forall y, x | InGrid(x, y) :: g'[y][x] == g[y][x] || (g[y][x] == Soft && g'[y][x] == Empty && OnArms(b, x, y))
  }

  /** The new blast cells after the first `from` entries all lie on the arms. */
  predicate ArmCellsFrom(g: Cells, b: Bomb, es: seq<Explosion>, from: nat)
    requires WellFormed(g)
  {
    forall k | from <= k < |es| :: ArmCell(g, b, es[k])
  }

  lemma CellOnArms(b: Bomb, d: Delta, i: int)
    requires d in Directions && 1 <= i <= Reach(b)
    ensures OnArms(b, Cell(b, d, i).0, Cell(b, d, i).1)
  {
  }

  /** One direction of `explodeBomb`: at most `range` cells along it, never a
      wall or the outside, and only a soft block it stopped at is cleared. */
  lemma RayArms(r: Room, b: Bomb, d: Delta)
    requires WellFormed(r.grid) && d in Directions
    ensures var r' := Ray(r, b, d);
      |r'.explosions| >= |r.explosions| && r'.explosions[..|r.explosions|] == r.explosions &&
      ArmCellsFrom(r.grid, b, r'.explosions, |r.explosions|) &&
      ClearedOnArms(r.grid, r'.grid, b)
  {
    RayUpToShape(r, b, d, Reach(b));
    ShapedArms(r, RayUpTo(r, b, d, Reach(b)), b, d);
  }

  /** A room shaped as a whole ray leaves blast cells and cleared blocks
      only on the arms. */
  lemma ShapedArms(r: Room, res: (Room, bool), b: Bomb, d: Delta)
    requires WellFormed(r.grid) && d in Directions && Shaped(r, res, b, d, Reach(b))
    ensures var r' := res.0;
      |r'.explosions| >= |r.explosions| && r'.explosions[..|r.explosions|] == r.explosions &&
      ArmCellsFrom(r.grid, b, r'.explosions, |r.explosions|) &&
      ClearedOnArms(r.grid, r'.grid, b)
  {
    var r' := res.0;
    var n := Reach(b);
    var g := r.grid;
    var m := Covered(g, b, d, n);
    assert r'.explosions == r.explosions + Line(b, d, m);
    forall k | |r.explosions| <= k < |r'.explosions| ensures ArmCell(g, b, r'.explosions[k]) {
      var i := k - |r.explosions| + 1;
      LineAt(b, d, m, i);
      CellOnArms(b, d, i);
    }
    var f := FirstBlock(g, b, d, n);
    if f <= n {
      CellOnArms(b, d, f);
    }
  }

  /** The blast cells and cleared blocks of successive rays add up. */
  lemma ArmsTrans(g0: Cells, g1: Cells, g2: Cells, b: Bomb, es: seq<Explosion>, n0: nat, n1: nat)
    requires WellFormed(g0) && WellFormed(g1) && WellFormed(g2)
    requires ClearedOnArms(g0, g1, b) && ClearedOnArms(g1, g2, b)
    requires n0 <= n1 <= |es| && ArmCellsFrom(g0, b, es[..n1], n0) && ArmCellsFrom(g1, b, es, n1)
    ensures ClearedOnArms(g0, g2, b) && ArmCellsFrom(g0, b, es, n0)
  {
    forall k | n0 <= k < |es| ensures ArmCell(g0, b, es[k]) {
      if k < n1 {
        assert es[..n1][k] == es[k];
      }
    }
  }

  /** The `forEach` over the directions after its first k rays. */
  lemma {:induction false} RaysUpToArms(r: Room, b: Bomb, k: nat)
    requires WellFormed(r.grid) && k <= |Directions|
    ensures var r' := RaysUpTo(r, b, k);
      |r'.explosions| >= |r.explosions| && r'.explosions[..|r.explosions|] == r.explosions &&
      ArmCellsFrom(r.grid, b, r'.explosions, |r.explosions|) &&
      ClearedOnArms(r.grid, r'.grid, b)
    decreases k
  {
    if k > 0 {
      var s := RaysUpTo(r, b, k - 1);
      RaysUpToArms(r, b, k - 1);
      var t := Ray(s, b, Directions[k - 1]);
      RayArms(s, b, Directions[k - 1]);
      assert t.explosions[..|s.explosions|] == s.explosions;
      assert t.explosions[..|r.explosions|] == s.explosions[..|r.explosions|];
      ArmsTrans(r.grid, s.grid, t.grid, b, t.explosions, |r.explosions|, |s.explosions|);
    }
  }

  lemma {:induction false} RaysUpToFated(r: Room, b: Bomb, k: nat)
    requires WellFormed(r.grid) && DistinctIds(r.players) && k <= |Directions|
    ensures Fated(r, RaysUpTo(r, b, k), b.ownerId)
    decreases k
  {
    if k > 0 {
      var s := RaysUpTo(r, b, k - 1);
      RaysUpToFated(r, b, k - 1);
      SameIdsDistinct(r.players, s.players);
      RayUpToFated(s, b, Directions[k - 1], Reach(b));
      FatedTrans(r, s, Ray(s, b, Directions[k - 1]), b.ownerId);
    }
  }

  /** `explodeBomb`: the bomb's own cell comes first; every later blast cell
      lies on one of the four arms within the bomb's range, inside the grid
      and not on a wall; the grid changes only by soft blocks on the arms
      becoming empty; players only die, and only the owner is credited. */
  lemma ExplodeSpec(r: Room, b: Bomb)
    requires WellFormed(r.grid) && DistinctIds(r.players)
    ensures var r' := Explode(r, b);
      Fated(r, r', b.ownerId) &&
      |r'.explosions| > |r.explosions| &&
      r'.explosions[..|r.explosions| + 1] == r.explosions + [Explosion(b.x, b.y, ExplosionLife)] &&
      ArmCellsFrom(r.grid, b, r'.explosions, |r.explosions| + 1) &&
      ClearedOnArms(r.grid, r'.grid, b) &&
      Judged(r, r')
  {
    ExplodeJudged(r, b);
    var s := Strike(r, b.x, b.y, b.ownerId);
    StrikeSpec(r, b.x, b.y, b.ownerId);
    SameIdsDistinct(r.players, s.players);
    RaysUpToArms(s, b, |Directions|);
    RaysUpToFated(s, b, |Directions|);
    FatedTrans(r, s, Explode(r, b), b.ownerId);
    var r' := Explode(r, b);
    assert r' == RaysUpTo(s, b, |Directions|);
    assert r'.explosions[..|r.explosions| + 1] == r'.explosions[..|s.explosions|];
  }

  // ----------------------------------------------------------------------
  // Sudden death

  /** What the first n passes of the `forEach` of `applySuddenDeath` leave
      behind: those of the first n players who stood alive on (x, y) are
      dead, nobody is credited, and nothing else about any player changes. */
  predicate Crushed(r: Room, r': Room, x: int, y: int, n: nat) {
    |r'.players| == |r.players| &&
    (forall i | 0 <= i < |r.players| ::
      r'.players[i] == r.players[i].(alive := r.players[i].alive && !(i < n && OnCell(r.players[i], x, y)))) &&
    (r'.gameState == r.gameState || r'.gameState == Ended)
  }

  /** One more pass keeps `Crushed` with one more index. */
  lemma CrushedStep(r: Room, s: Room, x: int, y: int, n: nat)
    requires 0 < n <= |r.players| && Crushed(r, s, x, y, n - 1)
    ensures Crushed(r, CrushStep(s, x, y, n - 1), x, y, n)
  {
    assert s.players[n - 1] == r.players[n - 1];
  }

  lemma {:induction false} CrushUpToSpec(r: Room, x: int, y: int, n: nat)
    requires n <= |r.players|
    ensures Crushed(r, CrushUpTo(r, x, y, n), x, y, n)
    decreases n
  {
    if n > 0 {
      CrushUpToSpec(r, x, y, n - 1);
      CrushedStep(r, CrushUpTo(r, x, y, n - 1), x, y, n);
    }
  }

  /** `applySuddenDeath(now)`: nothing happens within 500 ms of the last
      sudden-death step; otherwise the step is stamped with `now` and, while
      the spiral has cells left, its next cell becomes a wall, everyone alive
      on it dies without credit and the spiral advances by one. */
  lemma SuddenDeathSpec(r: Room, now: int)
    requires WellFormed(r.grid)
    ensures var r' := ApplySuddenDeath(r, now);
      (now - r.lastSuddenDeathTick < SuddenDeathPeriod ==> r' == r) &&
      (now - r.lastSuddenDeathTick >= SuddenDeathPeriod ==>
        r'.lastSuddenDeathTick == now &&
        (Spiral.SpiralAt(r.suddenDeathIndex).None? ==> r' == r.(lastSuddenDeathTick := now)) &&
        (Spiral.SpiralAt(r.suddenDeathIndex).Some? ==>
          var c := Spiral.SpiralAt(r.suddenDeathIndex).value;
          InGrid(c.x, c.y) && r'.grid == SetCell(r.grid, c.x, c.y, Wall) &&
          r'.suddenDeathIndex == r.suddenDeathIndex + 1 &&
          r'.bombs == r.bombs && r'.explosions == r.explosions &&
          (r'.gameState == r.gameState || r'.gameState == Ended) &&
          forall i | 0 <= i < |r.players| ::
            r'.players[i] == r.players[i].(alive := r.players[i].alive && !OnCell(r.players[i], c.x, c.y)))) &&
      Judged(r, r')
  {
    SuddenDeathJudged(r, now);
    if now - r.lastSuddenDeathTick >= SuddenDeathPeriod {
      match Spiral.SpiralAt(r.suddenDeathIndex)
      case None =>
      case Some(c) =>
        Spiral.SpiralInGrid(r.suddenDeathIndex);
        var r2 := r.(lastSuddenDeathTick := now, grid := SetCell(r.grid, c.x, c.y, Wall));
        CrushUpToSpec(r2, c.x, c.y, |r2.players|);
    }
  }

  /** `update` does nothing outside a game in progress, and it leaves the
      sudden-death state alone until the match is older than the delay. */
  lemma UpdateGates(r: Room, dt: int, now: int)
    requires Valid(r)
    ensures r.gameState != Playing ==> Update(r, dt, now) == r
    ensures now - r.matchStartTime <= r.suddenDeathTimer ==>
      Update(r, dt, now).suddenDeathIndex == r.suddenDeathIndex &&
      Update(r, dt, now).lastSuddenDeathTick == r.lastSuddenDeathTick
  {
  }

  // ----------------------------------------------------------------------
  // What one step does to the bomb and explosion lists

  /** Reference for the bomb loop of `update`: every fuse burns down by dt,
      and the bombs whose fuse is still above zero stay, in their order. */
  function Burned(bs: seq<Bomb>, dt: int): seq<Bomb>
    decreases |bs|
  {
    if bs == [] then []
    else
      var b := bs[0].(timer := bs[0].timer - dt);
      (if b.timer > 0 then [b] else []) + Burned(bs[1..], dt)
  }

  /** Reference for the explosion loop of `update`: every timer runs down by
      dt, and the explosions still above the fade mark stay, in their order. */
  function Faded(es: seq<Explosion>, dt: int): seq<Explosion>
    decreases |es|
  {
    if es == [] then []
    else
      var e := es[0].(timer := es[0].timer - dt);
      (if e.timer > ExplosionFade then [e] else []) + Faded(es[1..], dt)
  }

  /** Filtering a list is filtering its two halves. */
  lemma {:induction false} FadedConcat(a: seq<Explosion>, b: seq<Explosion>, dt: int)
    ensures Faded(a + b, dt) == Faded(a, dt) + Faded(b, dt)
    decreases |a|
  {
    if a != [] {
      assert (a + b)[1..] == a[1..] + b;
      FadedConcat(a[1..], b, dt);
    } else {
      assert a + b == b;
    }
  }

  /** An explosion that outlives the step is still in the list afterwards,
      with its timer lowered by dt. */
  lemma {:induction false} FadedKeeps(es: seq<Explosion>, dt: int, e: Explosion)
    requires e in es && e.timer - dt > ExplosionFade
    ensures e.(timer := e.timer - dt) in Faded(es, dt)
    decreases |es|
  {
    if es[0] != e {
      assert e in es[1..];
      FadedKeeps(es[1..], dt, e);
    }
  }

  /** One more pass of the reverse explosion loop: if the positions above i
      already hold what `Faded` keeps of them, then after position i is
      spliced out or run down the positions from i on do. */
  lemma FadedStep(es: seq<Explosion>, i: nat, f: seq<Explosion>, dt: int)
    requires i < |es| && f == es[..i + 1] + Faded(es[i + 1..], dt)
    ensures Fade(f, dt, i) == es[..i] + Faded(es[i..], dt)
  {
    var tail := Faded(es[i + 1..], dt);
    assert es[..i + 1] == es[..i] + [es[i]];
    assert es[i..][1..] == es[i + 1..];
    assert f[..i] == es[..i] && f[i] == es[i] && f[i + 1..] == tail;
    var e := es[i].(timer := es[i].timer - dt);
    if e.timer > ExplosionFade {
      assert f[i := e] == es[..i] + [e] + tail;
    }
  }

  /** The reverse splicing loop over explosions keeps exactly what `Faded`
      keeps; the positions below i are not touched yet. */
  lemma {:induction false} FadeDownFaded(es: seq<Explosion>, dt: int, i: nat)
    requires i <= |es|
    ensures FadeDown(es, dt, i) == es[..i] + Faded(es[i..], dt)
    decreases |es| - i
  {
    if i == |es| {
      assert es[i..] == [];
      assert es[..i] == es;
    } else {
      FadeDownFaded(es, dt, i + 1);
      FadedStep(es, i, FadeDown(es, dt, i + 1), dt);
    }
  }

  /** The whole explosion loop of `update` is `Faded`. */
  lemma FadeAll(es: seq<Explosion>, dt: int)
    ensures FadeDown(es, dt, 0) == Faded(es, dt)
  {
    FadeDownFaded(es, dt, 0);
    assert es[0..] == es;
  }

  /** One pass of the reverse bomb loop: bomb j leaves the list when its fuse
      is spent and otherwise only its timer changes; explosions are only
      appended, the spent bomb's own cell among them. */
  lemma TickBombLists(r: Room, dt: int, j: nat)
    requires WellFormed(r.grid) && DistinctIds(r.players) && j < |r.bombs|
    ensures var r' := TickBomb(r, dt, j);
      var b := r.bombs[j].(timer := r.bombs[j].timer - dt);
      (b.timer <= 0 ==> r'.bombs == r.bombs[..j] + r.bombs[j + 1..]) &&
      (b.timer > 0 ==> r'.bombs == r.bombs[j := b]) &&
      |r'.explosions| >= |r.explosions| && r'.explosions[..|r.explosions|] == r.explosions &&
      (b.timer <= 0 ==> Explosion(b.x, b.y, ExplosionLife) in r'.explosions)
  {
    var s := Burn(r, dt, j);
    var b := s.bombs[j];
    if b.timer <= 0 {
      var r1 := Explode(s, b);
      ExplodeSpec(s, b);
      var r' := TickBomb(r, dt, j);
      assert r' == Detonate(s, j);
      assert r'.explosions == r1.explosions;
      assert r1.explosions[..|r.explosions| + 1][|r.explosions|] == Explosion(b.x, b.y, ExplosionLife);
      assert r1.explosions[..|r.explosions|] == r1.explosions[..|r.explosions| + 1][..|r.explosions|];
      assert s.bombs[..j] == r.bombs[..j];
      assert s.bombs[j + 1..] == r.bombs[j + 1..];
    }
  }

  /** One more pass of the reverse bomb loop, on lists alone: if the
      positions above i already hold what `Burned` keeps of them, then after
      position i is spliced out or burnt down the positions from i on do. */
  lemma BurnedStep(bs: seq<Bomb>, i: nat, s: seq<Bomb>, t: seq<Bomb>, dt: int)
    requires i < |bs| && s == bs[..i + 1] + Burned(bs[i + 1..], dt)
    requires s[i].timer - dt <= 0 ==> t == s[..i] + s[i + 1..]
    requires s[i].timer - dt > 0 ==> t == s[i := s[i].(timer := s[i].timer - dt)]
    ensures t == bs[..i] + Burned(bs[i..], dt)
  {
    var tail := Burned(bs[i + 1..], dt);
    assert bs[..i + 1] == bs[..i] + [bs[i]];
    assert bs[i..][1..] == bs[i + 1..];
    assert s[..i] == bs[..i] && s[i] == bs[i] && s[i + 1..] == tail;
    var b := bs[i].(timer := bs[i].timer - dt);
    if b.timer > 0 {
      assert s[i := b] == bs[..i] + [b] + tail;
    }
  }

  /** The reverse bomb loop over positions i and above keeps exactly the
      bombs `Burned` keeps there. */
  lemma {:induction false} TickBombsDownBombs(r: Room, dt: int, i: nat)
    requires WellFormed(r.grid) && DistinctIds(r.players) && i <= |r.bombs|
    ensures TickBombsDown(r, dt, i).bombs == r.bombs[..i] + Burned(r.bombs[i..], dt)
    decreases |r.bombs| - i
  {
    if i == |r.bombs| {
      assert r.bombs[i..] == [];
      assert r.bombs[..i] == r.bombs;
    } else {
      var s := TickBombsDown(r, dt, i + 1);
      TickBombsDownBombs(r, dt, i + 1);
      SameIdsDistinct(r.players, s.players);
      TickBombLists(s, dt, i);
      TickBombsDownStep(r, dt, i);
      BurnedStep(r.bombs, i, s.bombs, TickBombsDown(r, dt, i).bombs, dt);
    }
  }

  /** Position i of a list whose first i + 1 entries are those of `bs`. */
  lemma SameBombAt(bs: seq<Bomb>, i: nat, tail: seq<Bomb>, s: seq<Bomb>)
    requires i < |bs| && s == bs[..i + 1] + tail
    ensures s[i] == bs[i]
  {
    assert s[i] == bs[..i + 1][i];
  }

  /** One more pass of the reverse bomb loop, on lists alone: appending to
      the explosions keeps the old ones in front and the centres already in
      the list, and the centre of bomb i joins them when its fuse is spent. */
  lemma BlastsStep(bs: seq<Bomb>, i: nat, dt: int, pre: seq<Explosion>, s: seq<Explosion>, t: seq<Explosion>)
    requires i < |bs|
    requires |s| >= |pre| && s[..|pre|] == pre
    requires forall k | i < k < |bs| && bs[k].timer - dt <= 0 :: Explosion(bs[k].x, bs[k].y, ExplosionLife) in s
    requires |t| >= |s| && t[..|s|] == s
    requires bs[i].timer - dt <= 0 ==> Explosion(bs[i].x, bs[i].y, ExplosionLife) in t
    ensures |t| >= |pre| && t[..|pre|] == pre
    ensures forall k | i <= k < |bs| && bs[k].timer - dt <= 0 :: Explosion(bs[k].x, bs[k].y, ExplosionLife) in t
  {
    assert t[..|pre|] == t[..|s|][..|pre|];
    forall k | i < k < |bs| && bs[k].timer - dt <= 0
      ensures Explosion(bs[k].x, bs[k].y, ExplosionLife) in t
    {
      assert Explosion(bs[k].x, bs[k].y, ExplosionLife) in t[..|s|];
    }
  }

  /** The reverse bomb loop over positions i and above only appends to the
      explosions, and every bomb there whose fuse runs out leaves its own cell
      among them. */
  lemma {:induction false} TickBombsDownBlasts(r: Room, dt: int, i: nat)
    requires WellFormed(r.grid) && DistinctIds(r.players) && i <= |r.bombs|
    ensures var r' := TickBombsDown(r, dt, i);
      |r'.explosions| >= |r.explosions| && r'.explosions[..|r.explosions|] == r.explosions &&
      forall k | i <= k < |r.bombs| && r.bombs[k].timer - dt <= 0 ::
        Explosion(r.bombs[k].x, r.bombs[k].y, ExplosionLife) in r'.explosions
    decreases |r.bombs| - i
  {
    if i < |r.bombs| {
      var s := TickBombsDown(r, dt, i + 1);
      TickBombsDownBlasts(r, dt, i + 1);
      TickBombsDownBombs(r, dt, i + 1);
      SameIdsDistinct(r.players, s.players);
      TickBombLists(s, dt, i);
      TickBombsDownStep(r, dt, i);
      SameBombAt(r.bombs, i, Burned(r.bombs[i + 1..], dt), s.bombs);
      var t := TickBombsDown(r, dt, i);
      assert t == TickBomb(s, dt, i);
      assert |t.explosions| >= |s.explosions| && t.explosions[..|s.explosions|] == s.explosions;
      assert r.bombs[i].timer - dt <= 0 ==> Explosion(r.bombs[i].x, r.bombs[i].y, ExplosionLife) in t.explosions;
      BlastsStep(r.bombs, i, dt, r.explosions, s.explosions, t.explosions);
    }
  }

  /** A step that ends nobody's life leaves the game state and the winner
      alone. */
  lemma JudgedSameFlags(r: Room, r': Room)
    requires |r'.players| == |r.players|
    requires forall k | 0 <= k < |r.players| :: r'.players[k].id == r.players[k].id && r'.players[k].alive == r.players[k].alive
    requires r'.gameState == r.gameState && r'.winner == r.winner
    ensures Judged(r, r')
  {
    AliveCountSameFlags(r.players, r'.players);
  }

  /** A bomb going off ends the game as the check at its last death says;
      handing the bomb back to its owner decides nothing. */
  lemma TickBombJudged(r: Room, dt: int, j: nat)
    requires WellFormed(r.grid) && DistinctIds(r.players) && j < |r.bombs|
    ensures Judged(r, TickBomb(r, dt, j))
  {
    var s := Burn(r, dt, j);
    JudgedSameFlags(r, s);
    if s.bombs[j].timer <= 0 {
      var b := s.bombs[j];
      var r1 := Explode(s, b);
      ExplodeJudged(s, b);
      var r2 := r1.(bombs := r1.bombs[..j] + r1.bombs[j + 1..]);
      var r3 := r2.(players := Release(r2.players, b.ownerId));
      SameIdsDistinct(s.players, r1.players);
      forall k | 0 <= k < |r1.players|
        ensures r3.players[k].id == r1.players[k].id && r3.players[k].alive == r1.players[k].alive
      {
        ReleaseAt(r2.players, b.ownerId, k);
      }
      JudgedSameFlags(r1, r3);
      JudgedTrans(s, r1, r3);
      JudgedTrans(r, s, r3);
      assert TickBomb(r, dt, j) == r3;
    }
  }

  lemma {:induction false} TickBombsDownJudged(r: Room, dt: int, i: nat)
    requires WellFormed(r.grid) && DistinctIds(r.players) && i <= |r.bombs|
    ensures Judged(r, TickBombsDown(r, dt, i))
    decreases |r.bombs| - i
  {
    if i == |r.bombs| {
      JudgedSameFlags(r, r);
    } else {
      var s := TickBombsDown(r, dt, i + 1);
      TickBombsDownJudged(r, dt, i + 1);
      TickBombsDownBombs(r, dt, i + 1);
      SameIdsDistinct(r.players, s.players);
      TickBombJudged(s, dt, i);
      JudgedTrans(r, s, TickBombsDown(r, dt, i));
    }
  }

  /** Sudden death leaves both lists alone, so during a game `update` changes
      them only through its two loops. */
  lemma UpdateLists(r: Room, dt: int, now: int)
    requires Valid(r) && r.gameState == Playing
    ensures var t := TickBombsDown(r, dt, 0);
      Update(r, dt, now).bombs == t.bombs && Update(r, dt, now).explosions == FadeDown(t.explosions, dt, 0)
  {
  }

  /** `update(dt)` ends the game as the check at the step's last death says,
      and otherwise leaves the game state and the winner alone. */
  lemma UpdateJudged(r: Room, dt: int, now: int)
    requires Valid(r)
    ensures Judged(r, Update(r, dt, now))
  {
    if r.gameState != Playing {
      JudgedSameFlags(r, r);
    } else {
      var t := TickBombsDown(r, dt, 0);
      TickBombsDownJudged(r, dt, 0);
      var r2 := t.(explosions := FadeDown(t.explosions, dt, 0));
      JudgedSameFlags(t, r2);
      JudgedTrans(r, t, r2);
      if now - r2.matchStartTime > r2.suddenDeathTimer {
        SuddenDeathJudged(r2, now);
        JudgedTrans(r, r2, ApplySuddenDeath(r2, now));
      }
    }
  }

  /** Filtering a list that extends `pre` filters `pre` and then the rest. */
  lemma FadedAfter(pre: seq<Explosion>, es: seq<Explosion>, dt: int)
    requires |es| >= |pre| && es[..|pre|] == pre
    ensures Faded(es, dt) == Faded(pre, dt) + Faded(es[|pre|..], dt)
  {
    assert es == pre + es[|pre|..];
    FadedConcat(pre, es[|pre|..], dt);
  }

  /** Fresh blasts at the centres of spent bombs outlive a step short enough. */
  lemma FadedCentres(bs: seq<Bomb>, es: seq<Explosion>, dt: int)
    requires ExplosionLife - dt > ExplosionFade
    requires forall k | 0 <= k < |bs| && bs[k].timer - dt <= 0 :: Explosion(bs[k].x, bs[k].y, ExplosionLife) in es
    ensures forall k | 0 <= k < |bs| && bs[k].timer - dt <= 0 :: Explosion(bs[k].x, bs[k].y, ExplosionLife - dt) in Faded(es, dt)
  {
    forall k | 0 <= k < |bs| && bs[k].timer - dt <= 0
      ensures Explosion(bs[k].x, bs[k].y, ExplosionLife - dt) in Faded(es, dt)
    {
      FadedKeeps(es, dt, Explosion(bs[k].x, bs[k].y, ExplosionLife));
    }
  }

  /** The two loops of `update` on their own. */
  lemma StepLists(r: Room, dt: int)
    requires Valid(r)
    ensures var t := TickBombsDown(r, dt, 0);
      var es := FadeDown(t.explosions, dt, 0);
      |t.explosions| >= |r.explosions| &&
      t.bombs == Burned(r.bombs, dt) &&
      es == Faded(r.explosions, dt) + Faded(t.explosions[|r.explosions|..], dt) &&
      (ExplosionLife - dt > ExplosionFade ==>
        forall k | 0 <= k < |r.bombs| && r.bombs[k].timer - dt <= 0 ::
          Explosion(r.bombs[k].x, r.bombs[k].y, ExplosionLife - dt) in es)
  {
    var t := TickBombsDown(r, dt, 0);
    TickBombsDownBombs(r, dt, 0);
    TickBombsDownBlasts(r, dt, 0);
    assert r.bombs[0..] == r.bombs && r.bombs[..0] == [];
    FadeAll(t.explosions, dt);
    FadedAfter(r.explosions, t.explosions, dt);
    if ExplosionLife - dt > ExplosionFade {
      FadedCentres(r.bombs, t.explosions, dt);
    }
  }

  /** `update(dt)` during a game: the bombs become the surviving bombs with
      their fuses burnt down by dt; the explosions become the survivors of
      the old list followed by the survivors of the blasts the step set off,
      the centre of every bomb that went off among them while it outlives the
      step; and the game ends after the step's deaths as `checkWinCondition`
      says. */
  lemma UpdateSpec(r: Room, dt: int, now: int)
    requires Valid(r) && r.gameState == Playing
    ensures var r' := Update(r, dt, now);
      var t := TickBombsDown(r, dt, 0);
      |t.explosions| >= |r.explosions| &&
      r'.bombs == Burned(r.bombs, dt) &&
      r'.explosions == Faded(r.explosions, dt) + Faded(t.explosions[|r.explosions|..], dt) &&
      (ExplosionLife - dt > ExplosionFade ==>
        forall k | 0 <= k < |r.bombs| && r.bombs[k].timer - dt <= 0 ::
          Explosion(r.bombs[k].x, r.bombs[k].y, ExplosionLife - dt) in r'.explosions) &&
      Judged(r, r')
  {
    UpdateLists(r, dt, now);
    UpdateJudged(r, dt, now);
    StepLists(r, dt);
  }

  // ----------------------------------------------------------------------
  // Invariants

  /** The number of bombs in the list placed by player `id`. */
  function Owned(bs: seq<Bomb>, id: string): nat
    decreases |bs|
  {
    if bs == [] then 0 else Owned(bs[..|bs| - 1], id) + if bs[|bs| - 1].ownerId == id then 1 else 0
  }

  lemma {:induction false} OwnedConcat(a: seq<Bomb>, b: seq<Bomb>, id: string)
    ensures Owned(a + b, id) == Owned(a, id) + Owned(b, id)
    decreases |b|
  {
    if b != [] {
      assert (a + b)[..|a + b| - 1] == a + b[..|b| - 1];
      OwnedConcat(a, b[..|b| - 1], id);
    } else {
      assert a + b == a;
    }
  }

  /** Taking bomb j out of the list takes one from its owner's count. */
  lemma OwnedSplice(bs: seq<Bomb>, j: nat, id: string)
    requires j < |bs|
    ensures Owned(bs[..j] + bs[j + 1..], id) == Owned(bs, id) - if bs[j].ownerId == id then 1 else 0
  {
    assert bs == bs[..j] + [bs[j]] + bs[j + 1..];
    OwnedConcat(bs[..j] + [bs[j]], bs[j + 1..], id);
    OwnedConcat(bs[..j], [bs[j]], id);
    OwnedConcat(bs[..j], bs[j + 1..], id);
    assert Owned([bs[j]], id) == if bs[j].ownerId == id then 1 else 0 by {
      assert [bs[j]][..0] == [];
    }
  }

  /** Changing a bomb but not its owner keeps every count. */
  lemma OwnedUpdate(bs: seq<Bomb>, j: nat, b: Bomb, id: string)
    requires j < |bs| && b.ownerId == bs[j].ownerId
    ensures Owned(bs[j := b], id) == Owned(bs, id)
  {
    assert bs[j := b] == bs[..j] + [b] + bs[j + 1..];
    assert bs == bs[..j] + [bs[j]] + bs[j + 1..];
    OwnedConcat(bs[..j] + [b], bs[j + 1..], id);
    OwnedConcat(bs[..j] + [bs[j]], bs[j + 1..], id);
    OwnedConcat(bs[..j], [b], id);
    OwnedConcat(bs[..j], [bs[j]], id);
    assert [b][..0] == [] && [bs[j]][..0] == [];
  }

  /** Every player's `activeBombs` is the number of its bombs on the board. */
  predicate Accounted(r: Room) {
    forall i | 0 <= i < |r.players| :: r.players[i].activeBombs == Owned(r.bombs, r.players[i].id)
  }

  predicate WithinBudget(r: Room) {
    forall i | 0 <= i < |r.players| :: r.players[i].activeBombs <= r.players[i].maxBombs
  }

  predicate OneBombPerCell(r: Room) {
    forall i, j | 0 <= i < j < |r.bombs| :: r.bombs[i].x != r.bombs[j].x || r.bombs[i].y != r.bombs[j].y
  }

  /** A room with players has a host among them. */
  predicate HostPresent(r: Room) {
    r.players != [] ==> r.hostId.Some? && Has(r.players, r.hostId.value)
  }

  /** The invariants that hold while a game runs. */
  predicate Sound(r: Room) {
    Valid(r) && Accounted(r) && WithinBudget(r) && OneBombPerCell(r) && HostPresent(r)
  }

  /** All invariants: a lobby has no bombs and no blast cells, and no
      operation of the class ever enters `ROUND_END`. */
  predicate Inv(r: Room) {
    Sound(r) && (r.gameState == Lobby ==> r.bombs == [] && r.explosions == []) && r.gameState != RoundEnd
  }

  /** A room changed only as a blast changes it, with its bombs, host and
      keys as before, is still sound. */
  lemma FatedSound(r: Room, r': Room, ownerId: string)
    requires Sound(r) && Fated(r, r', ownerId) && WellFormed(r'.grid)
    requires r'.bombs == r.bombs && r'.hostId == r.hostId && Ids(r'.players) == Ids(r.players)
    ensures Sound(r')
  {
    SameIdsDistinct(r.players, r'.players);
    if r.hostId.Some? {
      FindByIds(r.players, r'.players, r.hostId.value);
    }
  }

  /** With distinct keys the returned bomb goes to the one record with the
      owner's key. */
  lemma ReleaseAt(ps: Players, ownerId: string, j: nat)
    requires DistinctIds(ps) && j < |ps|
    ensures Release(ps, ownerId)[j] == ps[j].(activeBombs := ps[j].activeBombs - if ps[j].id == ownerId then 1 else 0)
  {
    if ps[j].id == ownerId {
      FindAt(ps, j);
    }
  }

  /** Taking a bomb off the board and giving it back to its owner keeps
      the accounting. */
  lemma ReturnAccounted(r: Room, j: nat)
    requires Sound(r) && j < |r.bombs|
    ensures var b := r.bombs[j];
      var r' := r.(bombs := r.bombs[..j] + r.bombs[j + 1..], players := Release(r.players, b.ownerId));
      Accounted(r') && WithinBudget(r') && OneBombPerCell(r')
  {
    var b := r.bombs[j];
    var r' := r.(bombs := r.bombs[..j] + r.bombs[j + 1..], players := Release(r.players, b.ownerId));
    forall i | 0 <= i < |r'.players|
      ensures r'.players[i].activeBombs == Owned(r'.bombs, r'.players[i].id)
      ensures r'.players[i].activeBombs <= r'.players[i].maxBombs
    {
      ReleaseAt(r.players, b.ownerId, i);
      OwnedSplice(r.bombs, j, r.players[i].id);
    }
    assert forall a | 0 <= a < |r'.bombs| :: r'.bombs[a] == r.bombs[if a < j then a else a + 1];
  }

  /** A detonation keeps the room sound: the bomb leaves the list exactly
      when its owner, if present, gets it back. */
  lemma DetonateSound(r: Room, j: nat)
    requires Sound(r) && j < |r.bombs|
    ensures var r' := Detonate(r, j);
      Sound(r') && (r'.gameState == r.gameState || r'.gameState == Ended)
  {
    var b := r.bombs[j];
    var r1 := Explode(r, b);
    ExplodeSpec(r, b);
    FatedSound(r, r1, b.ownerId);
    ReturnAccounted(r1, j);
    var r' := Detonate(r, j);
    assert r' == r1.(bombs := r1.bombs[..j] + r1.bombs[j + 1..], players := Release(r1.players, b.ownerId));
    SameIdsDistinct(r.players, r'.players);
    if r.hostId.Some? {
      FindByIds(r.players, r'.players, r.hostId.value);
    }
  }

  /** One pass of the bomb loop keeps the room sound. */
  lemma TickBombSound(r: Room, dt: int, j: nat)
    requires Sound(r) && j < |r.bombs|
    ensures var r' := TickBomb(r, dt, j);
      Sound(r') && (r'.gameState == r.gameState || r'.gameState == Ended)
  {
    var r1 := Burn(r, dt, j);
    forall i | 0 <= i < |r1.players| ensures Owned(r1.bombs, r1.players[i].id) == Owned(r.bombs, r.players[i].id) {
      OwnedUpdate(r.bombs, j, r1.bombs[j], r.players[i].id);
    }
    assert forall a | 0 <= a < |r1.bombs| :: r1.bombs[a].x == r.bombs[a].x && r1.bombs[a].y == r.bombs[a].y;
    assert Sound(r1);
    if r.bombs[j].timer - dt <= 0 {
      DetonateSound(r1, j);
    }
  }

  /** The whole bomb loop of `update` keeps the room sound. */
  lemma {:induction false} TickBombsDownSound(r: Room, dt: int, i: nat)
    requires Sound(r) && i <= |r.bombs|
    ensures var r' := TickBombsDown(r, dt, i);
      Sound(r') && (r'.gameState == r.gameState || r'.gameState == Ended)
    decreases |r.bombs| - i
  {
    if i < |r.bombs| {
      var s := TickBombsDown(r, dt, i + 1);
      assert TickBombsDown(r, dt, i) == TickBomb(s, dt, i);
      TickBombsDownSound(r, dt, i + 1);
      TickBombSound(s, dt, i);
    }
  }

  /** A sudden-death step keeps the room sound. */
  lemma SuddenDeathSound(r: Room, now: int)
    requires Sound(r)
    ensures var r' := ApplySuddenDeath(r, now);
      Sound(r') && (r'.gameState == r.gameState || r'.gameState == Ended)
  {
    SuddenDeathSpec(r, now);
    var r' := ApplySuddenDeath(r, now);
    SameIdsDistinct(r.players, r'.players);
    if r.hostId.Some? {
      FindByIds(r.players, r'.players, r.hostId.value);
    }
  }

  /** `update` keeps every invariant. */
  lemma UpdateInv(r: Room, dt: int, now: int)
    requires Inv(r)
    ensures Inv(Update(r, dt, now))
  {
    if r.gameState == Playing {
      var r1 := TickBombsDown(r, dt, 0);
      TickBombsDownSound(r, dt, 0);
      var r2 := r1.(explosions := FadeDown(r1.explosions, dt, 0));
      BlastCellsOnlySound(r1, r2.explosions);
      var r3 := if now - r2.matchStartTime > r2.suddenDeathTimer then ApplySuddenDeath(r2, now) else r2;
      if now - r2.matchStartTime > r2.suddenDeathTimer {
        SuddenDeathSound(r2, now);
      }
      assert Update(r, dt, now) == r3;
      PlayingSoundInv(r3);
    }
  }

  /** A sound room that is playing or has ended meets every invariant. */
  lemma PlayingSoundInv(r: Room)
    requires Sound(r) && (r.gameState == Playing || r.gameState == Ended)
    ensures Inv(r)
  {
  }

  /** Blast cells take no part in the invariants. */
  lemma BlastCellsOnlySound(r: Room, es: seq<Explosion>)
    requires Sound(r)
    ensures Sound(r.(explosions := es))
  {
  }

  /** Player p's counter matches its bombs on the board and its limit. */
  predicate Fits(bs: seq<Bomb>, p: Player) {
    p.activeBombs == Owned(bs, p.id) && p.activeBombs <= p.maxBombs
  }

  lemma FitsAll(r: Room)
    ensures Accounted(r) && WithinBudget(r) <==> forall p | p in r.players :: Fits(r.bombs, p)
  {
    if forall p | p in r.players :: Fits(r.bombs, p) {
      forall i | 0 <= i < |r.players| ensures Fits(r.bombs, r.players[i]) {
        assert r.players[i] in r.players;
      }
    }
  }

  /** Writing a fitting record into the map keeps every record fitting. */
  lemma PutFits(bs: seq<Bomb>, ps: Players, q: Player)
    requires DistinctIds(ps) && (forall p | p in ps && p.id != q.id :: Fits(bs, p)) && Fits(bs, q)
    ensures forall p | p in Put(ps, q) :: Fits(bs, p)
  {
    var r := Put(ps, q);
    forall p | p in r ensures Fits(bs, p) {
      var j :| 0 <= j < |r| && r[j] == p;
      if Has(ps, q.id) {
        var k := Find(ps, q.id).value;
        if j != k {
          assert ps[j] in ps && ps[j].id != q.id;
        }
      } else if j < |ps| {
        assert ps[j] in ps && ps[j].id != q.id;
      }
    }
  }


  /** Deleting a key keeps every remaining record fitting. */
  lemma DeleteFits(bs: seq<Bomb>, ps: Players, id: string)
    requires DistinctIds(ps) && (forall p | p in ps :: Fits(bs, p))
    ensures forall p | p in Delete(ps, id) :: Fits(bs, p)
  {
    if Has(ps, id) {
      var k := Find(ps, id).value;
      RemoveAt(ps, k, Delete(ps, id));
      forall p | p in Delete(ps, id) ensures Fits(bs, p) {
        var j :| 0 <= j < |Delete(ps, id)| && Delete(ps, id)[j] == p;
        assert ps[if j < k then j else j + 1] in ps;
      }
    }
  }

  /** A new room satisfies every invariant. */
  lemma NewRoomInv(roomId: string, maxPlayersSetting: int, grid: Cells)
    requires WellFormed(grid)
    ensures Inv(NewRoom(roomId, maxPlayersSetting, grid))
  {
  }

  // ----------------------------------------------------------------------
  // The operations one by one

  /** `addPlayer` refuses, changing nothing, outside the lobby or when the
      room is full; otherwise the new player stands on spawn point
      `size % 8` with one bomb, range two and no kills, and is host exactly
      when the room was empty. */
  lemma AddPlayerSpec(r: Room, id: string, name: string)
    requires Valid(r)
    ensures var res := AddPlayer(r, id, name); var r' := res.0; var k := |r.players|;
      (res.1.None? <==> r.gameState != Lobby || k >= r.maxPlayers) &&
      (res.1.None? ==> r' == r) &&
      (res.1.Some? ==>
        var p := res.1.value;
        p.id == id && p.name == (if name == "" then DefaultName(k) else name) &&
        (p.x, p.y) == StartPositions[k % 8] &&
        p.alive && p.activeBombs == 0 && p.maxBombs == 1 && p.bombRange == 2 && p.kills == 0 &&
        (p.isHost <==> r.players == []) &&
        r'.hostId == (if r.players == [] then Some(id) else r.hostId) &&
        Get(r'.players, id) == Some(p) &&
        (forall q | q != id :: Get(r'.players, q) == Get(r.players, q)) &&
        (!Has(r.players, id) ==> r'.players == r.players + [p]) &&
        r' == r.(players := r'.players, hostId := r'.hostId))
  {
  }

  lemma AddPlayerInv(r: Room, id: string, name: string)
    requires Inv(r)
    ensures Inv(AddPlayer(r, id, name).0)
  {
    var res := AddPlayer(r, id, name);
    if res.1.Some? {
      var p := res.1.value;
      assert r.bombs == [] && Fits(r.bombs, p);
      FitsAll(r);
      PutFits(r.bombs, r.players, p);
      FitsAll(res.0);
      var h := res.0.hostId.value;
      assert Get(res.0.players, h).Some?;
    }
  }

  /** `removePlayer`: the entry goes; when it was the host and others remain,
      the earliest remaining player becomes host, as `hostId` and as its
      `isHost` flag; the records keep their order and nothing else about them
      changes; its bombs stay on the board; a game in progress is checked for
      a winner. */
  lemma RemovePlayerSpec(r: Room, id: string)
    requires Valid(r)
    ensures var r' := RemovePlayer(r, id); var ps := Delete(r.players, id);
      var succession := r.hostId == Some(id) && ps != [];
      !Has(r'.players, id) && |r'.players| == |ps| &&
      (forall j | 0 <= j < |ps| :: r'.players[j] == if succession && j == 0 then ps[0].(isHost := true) else ps[j]) &&
      r'.hostId == (if succession then Some(ps[0].id) else r.hostId) &&
      r'.bombs == r.bombs && r'.explosions == r.explosions && r'.grid == r.grid &&
      (r.gameState == Playing && AliveCount(ps) <= 1 && |ps| > 1 ==>
        r'.gameState == Ended && r'.winner == FirstAliveId(r'.players)) &&
      (!(r.gameState == Playing && AliveCount(ps) <= 1 && |ps| > 1) ==>
        r'.gameState == r.gameState && r'.winner == r.winner)
  {
    var ps := Delete(r.players, id);
    if r.hostId == Some(id) && ps != [] {
      FindAt(ps, 0);
      var qs := Put(ps, ps[0].(isHost := true));
      assert AliveCount(qs) == AliveCount(ps) by {
        AliveCountSameFlags(ps, qs);
      }
    }
  }

  lemma RemovePlayerInv(r: Room, id: string)
    requires Inv(r)
    ensures Inv(RemovePlayer(r, id))
  {
    var ps := Delete(r.players, id);
    var r' := RemovePlayer(r, id);
    FitsAll(r);
    DeleteFits(r.bombs, r.players, id);
    if r.hostId == Some(id) && ps != [] {
      FindAt(ps, 0);
      PutFits(r.bombs, ps, ps[0].(isHost := true));
    } else if r.hostId.Some? && ps != [] {
      assert Get(ps, r.hostId.value) == Get(r.players, r.hostId.value);
    }
    FitsAll(r');
  }

  /** What can happen to a room after it is created: a tick of `update`, a
      leave, a move, a bomb or a join. */
  datatype Event = Step(dt: int, now: int) | Leave(id: string) | Move(id: string, dir: Direction)
                 | Drop(id: string) | Join(id: string, name: string)

  /** The room after the events, in order. */
  function Replay(r: Room, evs: seq<Event>): (r': Room)
    requires Valid(r)
    ensures Valid(r')
    decreases |evs|
  {
    if evs == [] then r
    else
      var r1 := match evs[0]
        case Step(dt, now) => Update(r, dt, now)
        case Leave(id) => RemovePlayer(r, id)
        case Move(id, dir) => MovePlayer(r, id, dir)
        case Drop(id) => PlaceBomb(r, id)
        case Join(id, name) => AddPlayer(r, id, name).0;
      Replay(r1, evs[1..])
  }

  /** A game in progress with at most one player stays in progress with at
      most one player through any single event: the win check needs more
      than one player, and nobody can join outside the lobby. */
  lemma LoneGameStays(r: Room, e: Event)
    requires Valid(r) && r.gameState == Playing && |r.players| <= 1
    ensures e.Step? ==> var r' := Update(r, e.dt, e.now); r'.gameState == Playing && |r'.players| == |r.players|
    ensures e.Leave? ==> var r' := RemovePlayer(r, e.id); r'.gameState == Playing && |r'.players| <= |r.players|
    ensures e.Move? ==> var r' := MovePlayer(r, e.id, e.dir); r'.gameState == Playing && |r'.players| == |r.players|
    ensures e.Drop? ==> var r' := PlaceBomb(r, e.id); r'.gameState == Playing && |r'.players| == |r.players|
    ensures e.Join? ==> AddPlayer(r, e.id, e.name).1 == None && AddPlayer(r, e.id, e.name).0 == r
  {
    match e
    case Step(dt, now) => UpdateJudged(r, dt, now);
    case Leave(id) => RemovePlayerSpec(r, id);
    case Move(id, dir) => MovePlayerSpec(r, id, dir);
    case Drop(id) => PlaceBombSpec(r, id);
    case Join(id, name) => AddPlayerSpec(r, id, name);
  }

  /** No sequence of events ends a game in progress that has at most one
      player. */
  lemma {:induction false} LoneGameNeverEnds(r: Room, evs: seq<Event>)
    requires Valid(r) && r.gameState == Playing && |r.players| <= 1
    ensures Replay(r, evs).gameState == Playing && |Replay(r, evs).players| <= |r.players|
    decreases |evs|
  {
    if evs != [] {
      var e := evs[0];
      LoneGameStays(r, e);
      var r1 := match e
        case Step(dt, now) => Update(r, dt, now)
        case Leave(id) => RemovePlayer(r, id)
        case Move(id, dir) => MovePlayer(r, id, dir)
        case Drop(id) => PlaceBomb(r, id)
        case Join(id, name) => AddPlayer(r, id, name).0;
      LoneGameNeverEnds(r1, evs[1..]);
    }
  }

  /** A game with two players where one leaves goes on with a lone player,
      and no later tick, leave, move, bomb or join ends it: the win check
      counts players, and one is not more than one. */
  lemma LastTwoNeverEnd(r: Room, id: string, later: seq<Event>)
    requires Valid(r) && r.gameState == Playing && |r.players| == 2 && Has(r.players, id)
    ensures RemovePlayer(r, id).gameState == Playing
    ensures Replay(RemovePlayer(r, id), later).gameState == Playing
  {
    RemovePlayerSpec(r, id);
    LoneGameNeverEnds(RemovePlayer(r, id), later);
  }

  /** With three players, one leaving can end the game. */
  lemma ThreeCanEnd(g: Cells)
    requires WellFormed(g)
    ensures var a := Player("a", "A", 100, 100, true, None, 1, 0, 2, true, 0);
      var b := Player("b", "B", 1300, 1100, false, None, 1, 0, 2, false, 0);
      var c := Player("c", "C", 100, 1100, true, None, 1, 0, 2, false, 0);
      var r := Room("R", g, [a, b, c], [], [], 4, Playing, Some("a"), None, 0, SuddenDeathDelay, 0, 0, None, None);
      RemovePlayer(r, "c").gameState == Ended && RemovePlayer(r, "c").winner == Some("a")
  {
    var a := Player("a", "A", 100, 100, true, None, 1, 0, 2, true, 0);
    var b := Player("b", "B", 1300, 1100, false, None, 1, 0, 2, false, 0);
    var c := Player("c", "C", 100, 1100, true, None, 1, 0, 2, false, 0);
    assert Find([a, b, c], "c") == Some(2);
    assert [a, b, c][..2] + [a, b, c][3..] == [a, b];
    assert Delete([a, b, c], "c") == [a, b];
    assert [a, b][1..] == [b] && [b][1..] == [];
    assert Alives([a, b]) == [a];
  }

  /** `startGame` moves the lobby to a game in progress, for the host only. */
  lemma StartGameInv(r: Room, id: string, now: int)
    requires Inv(r)
    ensures Inv(StartGame(r, id, now).0)
  {
  }

  /** `checkCollision` with at most one bomb per cell: a position is free
      exactly when its rounded cell is inside the grid and empty, and any
      bomb there is the mover's own and still within its first 500 ms. */
  lemma CollisionSpec(r: Room, x: int, y: int, id: string)
    requires Valid(r) && OneBombPerCell(r)
    ensures !CheckCollision(r, x, y, id) <==>
      InGrid(Round(x), Round(y)) && r.grid[Round(y)][Round(x)] == Empty &&
      forall i | 0 <= i < |r.bombs| && r.bombs[i].x == Round(x) && r.bombs[i].y == Round(y) ::
        r.bombs[i].ownerId == id && r.bombs[i].timer >= ArmedBelow
  {
    var gx, gy := Round(x), Round(y);
    match BombAt(r.bombs, gx, gy)
    case None =>
    case Some(b) =>
      var k :| 0 <= k < |r.bombs| && r.bombs[k] == b;
      assert forall i | 0 <= i < |r.bombs| && r.bombs[i].x == gx && r.bombs[i].y == gy :: i == k;
  }

  /** `movePlayer`: only a living player in a game in progress moves, by one
      step, and only onto a free position; nothing else changes. */
  lemma MovePlayerSpec(r: Room, id: string, dir: Direction)
    requires Valid(r)
    ensures var r' := MovePlayer(r, id, dir);
      var p := Get(r.players, id);
      var moved := r.gameState == Playing && p.Some? && p.value.alive &&
        !CheckCollision(r, Stepped(p.value.x, p.value.y, dir).0, Stepped(p.value.x, p.value.y, dir).1, id);
      (!moved ==> r' == r) &&
      (moved ==>
        var q := p.value;
        var (nx, ny) := Stepped(q.x, q.y, dir);
        r' == r.(players := r'.players) &&
        Get(r'.players, id) == Some(q.(x := nx, y := ny)) &&
        (forall k | k != id :: Get(r'.players, k) == Get(r.players, k)) &&
        InGrid(Round(nx), Round(ny)) && r.grid[Round(ny)][Round(nx)] == Empty)
  {
  }

  lemma MovePlayerInv(r: Room, id: string, dir: Direction)
    requires Inv(r)
    ensures Inv(MovePlayer(r, id, dir))
  {
    var r' := MovePlayer(r, id, dir);
    if r' != r {
      var q := Get(r.players, id).value;
      FitsAll(r);
      assert q in r.players;
      PutFits(r.bombs, r.players, q.(x := Stepped(q.x, q.y, dir).0, y := Stepped(q.x, q.y, dir).1));
      FitsAll(r');
    }
  }

  /** `placeBomb`: a living player in a game in progress with a bomb to spare
      drops one with a full fuse and its own range on its rounded cell,
      unless a bomb is there already, and its counter goes up by one;
      otherwise nothing changes. */
  lemma PlaceBombSpec(r: Room, id: string)
    requires Valid(r)
    ensures var r' := PlaceBomb(r, id);
      var p := Get(r.players, id);
      var placed := r.gameState == Playing && p.Some? && p.value.alive &&
        p.value.activeBombs < p.value.maxBombs && !BombOn(r.bombs, Round(p.value.x), Round(p.value.y));
      (!placed ==> r' == r) &&
      (placed ==>
        var q := p.value;
        r' == r.(players := r'.players, bombs := r'.bombs) &&
        r'.bombs == r.bombs + [Bomb(Round(q.x), Round(q.y), id, BombFuse, q.bombRange)] &&
        Get(r'.players, id) == Some(q.(activeBombs := q.activeBombs + 1)) &&
        (forall k | k != id :: Get(r'.players, k) == Get(r.players, k)))
  {
  }

  /** `placeBomb` keeps the counter in step with the board, within the
      player's limit, and at most one bomb per cell. */
  lemma PlaceBombInv(r: Room, id: string)
    requires Inv(r)
    ensures Inv(PlaceBomb(r, id))
  {
    PlaceBombShape(r, id);
    if PlaceBomb(r, id) != r {
      var q := Get(r.players, id).value;
      ArmInv(r, q, Round(q.x), Round(q.y));
    }
  }

  /** `placeBomb` either changes nothing or is a placement by a living
      player under its limit on a free cell. */
  lemma PlaceBombShape(r: Room, id: string)
    requires Valid(r)
    ensures PlaceBomb(r, id) == r ||
      (r.gameState == Playing && Get(r.players, id).Some? &&
       var q := Get(r.players, id).value;
       q in r.players && q.activeBombs < q.maxBombs && !BombOn(r.bombs, Round(q.x), Round(q.y)) &&
       PlaceBomb(r, id) == r.(bombs := r.bombs + [Bomb(Round(q.x), Round(q.y), q.id, BombFuse, q.bombRange)],
                              players := Put(r.players, q.(activeBombs := q.activeBombs + 1))))
  {
  }

  /** A bomb dropped on a free cell by a player under its limit, with its
      counter raised, keeps every invariant. */
  lemma ArmInv(r: Room, q: Player, x: int, y: int)
    requires Inv(r) && r.gameState == Playing && q in r.players
    requires q.activeBombs < q.maxBombs && !BombOn(r.bombs, x, y)
    ensures Inv(r.(bombs := r.bombs + [Bomb(x, y, q.id, BombFuse, q.bombRange)],
                   players := Put(r.players, q.(activeBombs := q.activeBombs + 1))))
  {
    var nb := Bomb(x, y, q.id, BombFuse, q.bombRange);
    var bs := r.bombs + [nb];
    var q' := q.(activeBombs := q.activeBombs + 1);
    var r' := r.(bombs := bs, players := Put(r.players, q'));
    FitsAll(r);
    forall p | p in r.players && p.id != q.id ensures Fits(bs, p) {
      OwnedAppend(r.bombs, nb, p.id);
    }
    OwnedAppend(r.bombs, nb, q.id);
    PutFits(bs, r.players, q');
    FitsAll(r');
    forall i, j | 0 <= i < j < |bs| ensures bs[i].x != bs[j].x || bs[i].y != bs[j].y {
      if j == |r.bombs| {
        assert bs[i] == r.bombs[i];
      }
    }
    if r.hostId.Some? && r.hostId.value != q.id {
      assert Get(r'.players, r.hostId.value) == Get(r.players, r.hostId.value);
    }
  }

  /** One more bomb counts for its owner only. */
  lemma OwnedAppend(bs: seq<Bomb>, b: Bomb, id: string)
    ensures Owned(bs + [b], id) == Owned(bs, id) + if b.ownerId == id then 1 else 0
  {
    assert (bs + [b])[..|bs|] == bs;
  }

  /** `a` and `b` join an empty room. */
  lemma JoinJoin(g: Cells)
    requires WellFormed(g)
    ensures var r2 := AddPlayer(AddPlayer(NewRoom("R", 0, g), "a", "A").0, "b", "B").0;
      r2.gameState == Lobby && r2.hostId == Some("a") &&
      r2.players == [NewPlayer("a", "A", 0), NewPlayer("b", "B", 1)]
  {
    var a := NewPlayer("a", "A", 0);
    var r1 := AddPlayer(NewRoom("R", 0, g), "a", "A").0;
    assert r1.players == [a];
    assert Find([a], "b") == None;
  }

  /** The host leaves a lobby of two: the other player remains, as host. */
  lemma HostLeavesPair(r: Room, a: Player, b: Player)
    requires Valid(r) && r.gameState == Lobby && r.players == [a, b] && r.hostId == Some(a.id)
    ensures RemovePlayer(r, a.id).players == [b.(isHost := true)]
    ensures RemovePlayer(r, a.id).gameState == Lobby
  {
    assert Find([a, b], a.id) == Some(0);
    assert [a, b][..0] + [a, b][1..] == [b];
    assert Delete(r.players, a.id) == [b];
    FindAt([b], 0);
    var q := Put([b], b.(isHost := true));
    assert |q| == 1 && q[0] == b.(isHost := true);
    assert RemovePlayer(r, a.id) == r.(players := q, hostId := Some(b.id));
  }

  /** The spawn point is chosen by the current size of the map, so a join
      after a departure reuses the spot of a player still in the room: `a`
      and `b` join, `a` leaves, and `c` spawns on top of `b`. */
  lemma SpawnCollision(g: Cells)
    requires WellFormed(g)
    ensures var r1 := AddPlayer(NewRoom("R", 0, g), "a", "A").0;
      var r2 := AddPlayer(r1, "b", "B").0;
      var r3 := RemovePlayer(r2, "a");
      var r4 := AddPlayer(r3, "c", "C").0;
      Get(r4.players, "b").Some? && Get(r4.players, "c").Some? &&
      Get(r4.players, "b").value.x == Get(r4.players, "c").value.x &&
      Get(r4.players, "b").value.y == Get(r4.players, "c").value.y
  {
    JoinJoin(g);
    var r2 := AddPlayer(AddPlayer(NewRoom("R", 0, g), "a", "A").0, "b", "B").0;
    HostLeavesPair(r2, NewPlayer("a", "A", 0), NewPlayer("b", "B", 1));
    var r3 := RemovePlayer(r2, "a");
    var b := NewPlayer("b", "B", 1).(isHost := true);
    var c := NewPlayer("c", "C", 1);
    assert Find([b], "c") == None;
    var r4 := AddPlayer(r3, "c", "C").0;
    assert r4.players == [b, c];
    assert Get(r4.players, "b") == Some(b);
    assert Find(r4.players, "c") == Some(1);
  }
}
