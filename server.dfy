/** The room registry of server/index.js: the `rooms` map from room code to
    room, the session leaderboard, the guards and resets of the socket
    handlers, and one 30 Hz tick. Rooms are held as `Rules.Room` values;
    sockets, emits and file persistence are not part of this model. */
module Server {
  import opened Opt
  import opened Grid
  import opened Roster
  import opened Rules
  import LB = Leaderboard
  import P = RulesProofs

  const NotFound: string := "Coordinates not found"
  const Saturated: string := "Zone saturated or operation in progress"

  /** How a handler ended: it acted, its guard let it do nothing, it sent the
      client an error message, or it threw a `TypeError`. */
  datatype Outcome = Done | Ignored | Failed(message: string) | Threw

  /** `String.prototype.toUpperCase` on one ASCII character. */
  function UpperChar(c: char): (u: char)
    ensures !('a' <= u <= 'z')
    ensures 'A' <= c <= 'Z' || !('a' <= c <= 'z') ==> u == c
  {
    if 'a' <= c <= 'z' then (c as int - 32) as char else c
  }

  /** The upper-cased room code. */
  function Upper(s: string): (u: string)
    ensures |u| == |s| && forall i | 0 <= i < |s| :: u[i] == UpperChar(s[i])
  {
    seq(|s|, i requires 0 <= i < |s| => UpperChar(s[i]))
  }

  /** Upper-casing twice is upper-casing once, so codes typed in any case
      reach the same room. */
  lemma UpperIdempotent(s: string)
    ensures Upper(Upper(s)) == Upper(s)
  {
    assert forall i | 0 <= i < |s| :: UpperChar(UpperChar(s[i])) == UpperChar(s[i]);
  }

  /** The sequence without `c`, the others in order. */
  function Without(cs: seq<string>, c: string): (r: seq<string>)
    ensures forall d :: d in r <==> d in cs && d != c
  {
    if cs == [] then []
    else if cs[0] == c then Without(cs[1..], c)
    else [cs[0]] + Without(cs[1..], c)
  }

  predicate Distinct(cs: seq<string>) {
    forall i, j | 0 <= i < j < |cs| :: cs[i] != cs[j]
  }

  /** Deleting a key from a list of distinct keys leaves them distinct. */
  lemma {:induction false} WithoutDistinct(cs: seq<string>, c: string)
    requires Distinct(cs)
    ensures Distinct(Without(cs, c))
  {
    if cs != [] {
      WithoutDistinct(cs[1..], c);
      if cs[0] != c {
        var r := Without(cs[1..], c);
        assert cs[0] !in cs[1..];
        assert cs[0] !in r;
        forall i, j | 0 <= i < j < |[cs[0]] + r| ensures ([cs[0]] + r)[i] != ([cs[0]] + r)[j] {
          if i == 0 {
            assert ([cs[0]] + r)[j] == r[j - 1];
          } else {
            assert ([cs[0]] + r)[i] == r[i - 1] && ([cs[0]] + r)[j] == r[j - 1];
          }
        }
      }
    }
  }

  // ----------------------------------------------------------------------
  // restartMatch and nextRound

  /** Every player back to life with no bombs out, no kills and not ready. */
  function Revived(ps: Players): (qs: Players)
    ensures |qs| == |ps|
    ensures forall i | 0 <= i < |ps| ::
      qs[i] == ps[i].(alive := true, activeBombs := 0, kills := 0, ready := Some(false))
  {
    seq(|ps|, i requires 0 <= i < |ps| => ps[i].(alive := true, activeBombs := 0, kills := 0, ready := Some(false)))
  }

  /** `restartMatch` as written: the room fields are reset up to
      `currentRound = 1`, then `roundWins.clear()` throws because no room
      ever has `roundWins`, so the players are never reset. */
  function RestartAsWritten(r: Room, grid: Cells): (res: (Room, Outcome))
    ensures r.roundWins.None? ==> res.1 == Threw && res.0.players == r.players
  {
    var r1 := r.(gameState := Lobby, winner := None, grid := grid, bombs := [], explosions := [],
      suddenDeathIndex := 0, lastSuddenDeathTick := 0, currentRound := Some(1));
    match r.roundWins
    case None => (r1, Threw)
    case Some(_) => (r1.(roundWins := Some(map[]), players := Revived(r.players)), Done)
  }

  /** The reset `restartMatch` evidently intends: a fresh lobby on a new grid
      with every player revived and its counters cleared. */
  function Restart(r: Room, grid: Cells): (r': Room)
    requires Valid(r) && WellFormed(grid)
    ensures Valid(r')
  {
    var qs := Revived(r.players);
    assert forall i, j | 0 <= i < j < |qs| :: qs[i].id == r.players[i].id && qs[j].id == r.players[j].id;
    r.(gameState := Lobby, winner := None, grid := grid, bombs := [], explosions := [],
      suddenDeathIndex := 0, lastSuddenDeathTick := 0, currentRound := Some(1), roundWins := Some(map[]),
      players := qs)
  }

  /** After the intended reset every invariant holds again, from any sound
      room: the host is kept and no bomb is left to account for. */
  lemma RestartInv(r: Room, grid: Cells)
    requires P.Inv(r) && WellFormed(grid)
    ensures P.Inv(Restart(r, grid))
    ensures forall i | 0 <= i < |r.players| ::
      Restart(r, grid).players[i].alive && Restart(r, grid).players[i].kills == 0
  {
    var r' := Restart(r, grid);
    forall p | p in r'.players ensures P.Fits(r'.bombs, p) {
      var j :| 0 <= j < |r'.players| && r'.players[j] == p;
      assert r.players[j] in r.players;
      P.FitsAll(r);
    }
    P.FitsAll(r');
    if r.players != [] {
      var h := r.hostId.value;
      var k := Find(r.players, h).value;
      assert r'.players[k].id == h;
    }
  }

  /** The partial reset breaks the bomb accounting: a player whose bomb was
      still on the board when the game ended keeps the bomb counted while
      the board is cleared. */
  lemma RestartAsWrittenUnaccounted(grid: Cells)
    requires WellFormed(grid)
    ensures var a := Player("a", "A", 100, 100, true, None, 1, 1, 2, true, 0);
      var b := Player("b", "B", 1300, 1100, false, None, 1, 0, 2, false, 0);
      var r := Room("R", grid, [a, b], [Bomb(1, 1, "a", BombFuse, 2)], [], 4, Ended, Some("a"),
        Some("a"), 0, SuddenDeathDelay, 0, 0, None, None);
      P.Inv(r) && !P.Accounted(RestartAsWritten(r, grid).0) && P.Accounted(Restart(r, grid))
  {
    var a := Player("a", "A", 100, 100, true, None, 1, 1, 2, true, 0);
    var b := Player("b", "B", 1300, 1100, false, None, 1, 0, 2, false, 0);
    var bomb := Bomb(1, 1, "a", BombFuse, 2);
    var r := Room("R", grid, [a, b], [bomb], [], 4, Ended, Some("a"),
      Some("a"), 0, SuddenDeathDelay, 0, 0, None, None);
    assert [bomb][..0] == [];
    assert P.Owned([bomb], "a") == 1;
    assert P.Owned([bomb], "b") == 0;
    assert Find([a, b], "a") == Some(0);
    RestartInv(r, grid);
  }

  /** `nextRound`'s reset: the intended restart with the round counter
      advanced by one. A counter that was never set stays `None` here, where
      JavaScript's `undefined++` yields `NaN`; nothing reads the counter, so
      the two cannot be told apart. */
  function NextRoundReset(r: Room, grid: Cells): (r': Room)
    requires Valid(r) && WellFormed(grid)
    ensures Valid(r')
  {
    var qs := Revived(r.players);
    assert forall i, j | 0 <= i < j < |qs| :: qs[i].id == r.players[i].id && qs[j].id == r.players[j].id;
    r.(gameState := Lobby, winner := None, grid := grid, bombs := [], explosions := [],
      suddenDeathIndex := 0, lastSuddenDeathTick := 0, players := qs,
      currentRound := match r.currentRound case None => None case Some(n) => Some(n + 1))
  }

  // ----------------------------------------------------------------------
  // The tick

  /** One tick of a room: only a game in progress is advanced, by 1000/30 ms.
      Every room the registry holds is valid (see `Hub.Valid`), so the
      validity test only makes the function total. */
  function TickRoom(r: Room, now: int): (r': Room)
    ensures Valid(r) ==> Valid(r')
    ensures r.gameState != Playing ==> r' == r
  {
    if r.gameState == Playing && Valid(r) then Update(r, TickDt, now) else r
  }

  /** The tick records a room on the leaderboard exactly when this tick took
      it from a game in progress to the end. */
  predicate Ends(r: Room, now: int) {
    r.gameState == Playing && TickRoom(r, now).gameState == Ended
  }

  predicate RoomsValid(rs: map<string, Room>) {
    forall c | c in rs :: Valid(rs[c])
  }

  /** The rooms after a loop over the first `n` codes that replaces each room
      it finds by `step` of it. */
  function Visit(rs: map<string, Room>, codes: seq<string>, step: Room -> Room, n: nat): (m: map<string, Room>)
    requires n <= |codes|
    ensures m.Keys == rs.Keys
  {
    if n == 0 then rs
    else
      var m := Visit(rs, codes, step, n - 1);
      var c := codes[n - 1];
      if c in m then m[c := step(m[c])] else m
  }

  /** Over distinct codes, the loop has stepped exactly the rooms of the
      codes visited so far, each once. */
  lemma {:induction false} VisitSpec(rs: map<string, Room>, codes: seq<string>, step: Room -> Room, n: nat)
    requires n <= |codes| && Distinct(codes)
    ensures forall k | n <= k < |codes| && codes[k] in rs :: Visit(rs, codes, step, n)[codes[k]] == rs[codes[k]]
    ensures forall k | 0 <= k < n && codes[k] in rs :: Visit(rs, codes, step, n)[codes[k]] == step(rs[codes[k]])
  {
    if n > 0 {
      VisitSpec(rs, codes, step, n - 1);
    }
  }

  /** The leaderboard after the same loop, which records the stepped room
      whenever `ends` holds of the room it finds. */
  function Tally(b: LB.Board, rs: map<string, Room>, codes: seq<string>, step: Room -> Room, ends: Room -> bool, n: nat): (b': LB.Board)
    requires LB.DistinctNames(b) && n <= |codes|
    ensures LB.DistinctNames(b')
  {
    if n == 0 then b
    else
      var m := Visit(rs, codes, step, n - 1);
      var b1 := Tally(b, rs, codes, step, ends, n - 1);
      var c := codes[n - 1];
      if c in m && ends(m[c]) then LB.Record(b1, step(m[c]).players, step(m[c]).winner) else b1
  }

  /** The same leaderboard read off the rooms as they were before the tick:
      the endings, in code order. */
  function Recorded(b: LB.Board, rs: map<string, Room>, codes: seq<string>, step: Room -> Room, ends: Room -> bool, n: nat): (b': LB.Board)
    requires LB.DistinctNames(b) && n <= |codes|
    ensures LB.DistinctNames(b')
  {
    if n == 0 then b
    else
      var b1 := Recorded(b, rs, codes, step, ends, n - 1);
      var c := codes[n - 1];
      if c in rs && ends(rs[c]) then LB.Record(b1, step(rs[c]).players, step(rs[c]).winner) else b1
  }

  lemma {:induction false} TallySpec(b: LB.Board, rs: map<string, Room>, codes: seq<string>, step: Room -> Room, ends: Room -> bool, n: nat)
    requires LB.DistinctNames(b) && n <= |codes| && Distinct(codes)
    ensures Tally(b, rs, codes, step, ends, n) == Recorded(b, rs, codes, step, ends, n)
  {
    if n > 0 {
      TallySpec(b, rs, codes, step, ends, n - 1);
      VisitSpec(rs, codes, step, n - 1);
    }
  }

  /** When no room ends, the leaderboard is left alone. */
  lemma {:induction false} QuietTally(b: LB.Board, rs: map<string, Room>, codes: seq<string>, step: Room -> Room, ends: Room -> bool, n: nat)
    requires LB.DistinctNames(b) && n <= |codes|
    requires forall c | c in rs :: !ends(rs[c])
    ensures Recorded(b, rs, codes, step, ends, n) == b
  {
    if n > 0 {
      QuietTally(b, rs, codes, step, ends, n - 1);
    }
  }

  /** The tick keeps every room valid, and sound when it was. */
  lemma TickKeeps(rs: map<string, Room>, codes: seq<string>, now: int)
    requires Distinct(codes) && (forall c | c in rs :: c in codes) && RoomsValid(rs)
    ensures var m := Visit(rs, codes, r => TickRoom(r, now), |codes|);
      RoomsValid(m) && ((forall c | c in rs :: P.Inv(rs[c])) ==> forall c | c in m :: P.Inv(m[c]))
  {
    var step := r => TickRoom(r, now);
    var m := Visit(rs, codes, step, |codes|);
    VisitSpec(rs, codes, step, |codes|);
    forall c | c in m ensures m[c] == TickRoom(rs[c], now) {
      var k :| 0 <= k < |codes| && codes[k] == c;
    }
    if forall c | c in rs :: P.Inv(rs[c]) {
      forall c | c in m ensures P.Inv(m[c]) {
        if rs[c].gameState == Playing {
          P.UpdateInv(rs[c], TickDt, now);
        }
      }
    }
  }

  /** A game that a departure ended is no longer in progress, so no later
      tick records it: its winner and kills never reach the leaderboard.
      This follows from `TickRoom`'s contract alone, which leaves a room not
      in play as it is; the lemma is kept as the witness of that behaviour. */
  lemma DepartureEndingUnrecorded(r: Room, id: string, now: int)
    requires Valid(r) && r.gameState == Playing && RemovePlayer(r, id).gameState == Ended
    ensures !Ends(RemovePlayer(r, id), now)
    ensures TickRoom(RemovePlayer(r, id), now) == RemovePlayer(r, id)
  {
  }

  // ----------------------------------------------------------------------
  // The registry

  class Hub {
    /** `rooms`, a `Map` from code to room, and the insertion order of its keys. */
    var rooms: map<string, Room>
    var codes: seq<string>
    /** `sessionLeaderboard` */
    var board: LB.Board

    predicate Valid()
      reads this
    {
      Distinct(codes) &&
      (forall c | c in codes :: c in rooms) && (forall c | c in rooms :: c in codes) &&
      (forall c | c in rooms :: Rules.Valid(rooms[c])) &&
      LB.DistinctNames(board)
    }

    /** Every room keeps its bombs accounted for. */
    predicate Sound()
      reads this
    {
      forall c | c in rooms :: P.Inv(rooms[c])
    }

    /** Start-up with the leaderboard that was loaded. */
    constructor(loaded: LB.Board)
      requires LB.DistinctNames(loaded)
      ensures Valid() && Sound()
      ensures rooms == map[] && codes == [] && board == loaded
    {
      rooms := map[];
      codes := [];
      board := loaded;
    }

    /** `rooms.set(code, r)`: a known code keeps its place. */
    method Store(code: string, r: Room)
      requires Valid() && Rules.Valid(r)
      modifies this
      ensures Valid()
      ensures rooms == old(rooms)[code := r] && board == old(board)
      ensures codes == old(codes) + (if code in old(rooms) then [] else [code])
      ensures old(Sound()) && P.Inv(r) ==> Sound()
    {
      rooms := rooms[code := r];
      if code !in codes {
        codes := codes + [code];
      }
    }

    /** `createRoom`: a new room under `code`, on the grid `g` generated
      from `draw`, with the creator as its first player. The code is not
      checked, so a live room under the same code is replaced. */
    method CreateRoom(code: string, id: string, name: string, maxPlayersSetting: int, draw: (int, int) -> bool)
      returns (g: Cells)
      requires Valid()
      modifies this
      ensures Valid()
      ensures WellFormed(g) && forall y, x | InGrid(x, y) :: g[y][x] == InitialCell(x, y, draw)
      ensures code in rooms && rooms[code] == AddPlayer(NewRoom(code, maxPlayersSetting, g), id, name).0
      ensures code in rooms && board == old(board)
      ensures codes == old(codes) + (if code in old(rooms) then [] else [code])
      ensures forall c | c != code :: (c in rooms <==> c in old(rooms)) && (c in rooms ==> rooms[c] == old(rooms)[c])
      ensures var r := rooms[code];
        r.gameState == Lobby && r.bombs == [] && r.roomId == code &&
        (r.maxPlayers >= 1 ==> r.players == [NewPlayer(id, name, 0)] && r.hostId == Some(id))
      ensures old(Sound()) ==> Sound()
    {
      g := GenerateGrid(draw);
      var r0 := NewRoom(code, maxPlayersSetting, g);
      var r := AddPlayer(r0, id, name).0;
      P.NewRoomInv(code, maxPlayersSetting, g);
      P.AddPlayerInv(r0, id, name);
      Store(code, r);
    }

    /** `joinRoom`: the code is upper-cased; an unknown code and a refused
      join each answer with their error and change nothing. */
    method JoinRoom(roomCode: string, id: string, name: string) returns (res: Outcome)
      requires Valid()
      modifies this
      ensures Valid()
      ensures var code := Upper(roomCode);
        (code !in old(rooms) ==> res == Failed(NotFound) && unchanged(this)) &&
        (code in old(rooms) ==>
          var (r', p) := AddPlayer(old(rooms)[code], id, name);
          (p.None? ==> res == Failed(Saturated) && unchanged(this)) &&
          (p.Some? ==> res == Done && rooms == old(rooms)[code := r'] && codes == old(codes) && board == old(board)))
      ensures old(Sound()) ==> Sound()
    {
      var code := Upper(roomCode);
      if code !in rooms {
        return Failed(NotFound);
      }
      var room := rooms[code];
      var (r', p) := AddPlayer(room, id, name);
      if p.None? {
        return Failed(Saturated);
      }
      if Sound() {
        P.AddPlayerInv(room, id, name);
      }
      Store(code, r');
      res := Done;
    }

    /** `startGame` for the socket's room. */
    method StartGame(code: string, id: string, now: int) returns (started: bool)
      requires Valid()
      modifies this
      ensures Valid()
      ensures started <==> code in old(rooms) && Rules.StartGame(old(rooms)[code], id, now).1
      ensures code in old(rooms) ==> rooms == old(rooms)[code := Rules.StartGame(old(rooms)[code], id, now).0]
      ensures code !in old(rooms) ==> rooms == old(rooms)
      ensures codes == old(codes) && board == old(board)
      ensures old(Sound()) ==> Sound()
    {
      started := false;
      if code in rooms {
        var room := rooms[code];
        var (r', ok) := Rules.StartGame(room, id, now);
        if Sound() {
          P.StartGameInv(room, id, now);
        }
        Store(code, r');
        started := ok;
      }
    }

    /** `move` for the socket's room. */
    method Move(code: string, id: string, dir: Direction)
      requires Valid()
      modifies this
      ensures Valid()
      ensures code in old(rooms) ==> rooms == old(rooms)[code := MovePlayer(old(rooms)[code], id, dir)]
      ensures code !in old(rooms) ==> rooms == old(rooms)
      ensures codes == old(codes) && board == old(board)
      ensures old(Sound()) ==> Sound()
    {
      if code in rooms {
        var room := rooms[code];
        if Sound() {
          P.MovePlayerInv(room, id, dir);
        }
        Store(code, MovePlayer(room, id, dir));
      }
    }

    /** `placeBomb` for the socket's room. */
    method PlaceBomb(code: string, id: string)
      requires Valid()
      modifies this
      ensures Valid()
      ensures code in old(rooms) ==> rooms == old(rooms)[code := Rules.PlaceBomb(old(rooms)[code], id)]
      ensures code !in old(rooms) ==> rooms == old(rooms)
      ensures codes == old(codes) && board == old(board)
      ensures old(Sound()) ==> Sound()
    {
      if code in rooms {
        var room := rooms[code];
        if Sound() {
          P.PlaceBombInv(room, id);
        }
        Store(code, Rules.PlaceBomb(room, id));
      }
    }

    /** `toggleReady`: rooms have no such operation, so in any existing room
      the call throws before anything changes. */
    method ToggleReady(code: string, id: string) returns (res: Outcome)
      ensures res == (if code in rooms then Threw else Ignored)
    {
      res := if code in rooms then Threw else Ignored;
    }

    /** `kickPlayer`: only the host, and never itself. The room stays even
      if it is left empty. */
    method KickPlayer(code: string, id: string, target: string) returns (kicked: bool)
      requires Valid()
      modifies this
      ensures Valid()
      ensures kicked <==> code in old(rooms) && old(rooms)[code].hostId == Some(id) && target != id
      ensures kicked ==> rooms == old(rooms)[code := RemovePlayer(old(rooms)[code], target)]
      ensures !kicked ==> rooms == old(rooms)
      ensures codes == old(codes) && board == old(board)
      ensures old(Sound()) ==> Sound()
    {
      kicked := false;
      if code in rooms && rooms[code].hostId == Some(id) && target != id {
        var room := rooms[code];
        if Sound() {
          P.RemovePlayerInv(room, target);
        }
        Store(code, RemovePlayer(room, target));
        kicked := true;
      }
    }

    /** `restartMatch`: for the host of an ended game, the full reset on a
      grid `g` freshly generated from `draw`; no grid is generated when the
      handler does not act, and `g` is then empty. */
    method RestartMatch(code: string, id: string, draw: (int, int) -> bool) returns (res: Outcome, g: Cells)
      requires Valid()
      modifies this
      ensures Valid()
      ensures var acts := code in old(rooms) && old(rooms)[code].hostId == Some(id) && old(rooms)[code].gameState == Ended;
        (acts ==>
           res == Done && WellFormed(g) && (forall y, x | InGrid(x, y) :: g[y][x] == InitialCell(x, y, draw)) &&
           code in rooms && rooms[code] == Restart(old(rooms)[code], g)) &&
        (!acts ==> res == Ignored && g == [] && rooms == old(rooms))
      ensures rooms.Keys == old(rooms).Keys && forall c | c in rooms && c != code :: rooms[c] == old(rooms)[c]
      ensures codes == old(codes) && board == old(board)
      ensures old(Sound()) ==> Sound()
    {
      res, g := Ignored, [];
      if code in rooms && rooms[code].hostId == Some(id) && rooms[code].gameState == Ended {
        var room := rooms[code];
        g := GenerateGrid(draw);
        ghost var wasSound := Sound();
        if wasSound {
          assert P.Inv(room);
          RestartInv(room, g);
        }
        var reset := Restart(room, g);
        assert reset.grid == g;
        Store(code, reset);
        res := Done;
      }
    }

    /** `nextRound`: for the host of a room between rounds, the reset with
      the round counter advanced, on a grid `g` freshly generated from
      `draw`; `g` is empty when the handler does not act. */
    method NextRound(code: string, id: string, draw: (int, int) -> bool) returns (res: Outcome, g: Cells)
      requires Valid()
      modifies this
      ensures Valid()
      ensures var acts := code in old(rooms) && old(rooms)[code].hostId == Some(id) && old(rooms)[code].gameState == RoundEnd;
        (acts ==>
           res == Done && WellFormed(g) && (forall y, x | InGrid(x, y) :: g[y][x] == InitialCell(x, y, draw)) &&
           code in rooms && rooms[code] == NextRoundReset(old(rooms)[code], g)) &&
        (!acts ==> res == Ignored && g == [] && rooms == old(rooms))
      ensures rooms.Keys == old(rooms).Keys && forall c | c in rooms && c != code :: rooms[c] == old(rooms)[c]
      ensures codes == old(codes) && board == old(board)
      ensures old(Sound()) ==> res == Ignored && rooms == old(rooms)
    {
      res, g := Ignored, [];
      if code in rooms && rooms[code].hostId == Some(id) && rooms[code].gameState == RoundEnd {
        var room := rooms[code];
        g := GenerateGrid(draw);
        Store(code, NextRoundReset(room, g));
        res := Done;
      }
    }

    /** `disconnect`: the player leaves its room, and a room left empty is
      deleted. */
    method Disconnect(code: string, id: string)
      requires Valid()
      modifies this
      ensures Valid()
      ensures code !in old(rooms) ==> rooms == old(rooms)
      ensures code in old(rooms) ==>
        var r' := RemovePlayer(old(rooms)[code], id);
        (r'.players == [] ==> rooms == old(rooms) - {code} && codes == Without(old(codes), code)) &&
        (r'.players != [] ==> rooms == old(rooms)[code := r'] && codes == old(codes))
      ensures code !in old(rooms) ==> codes == old(codes)
      ensures board == old(board)
      ensures old(Sound()) ==> Sound()
    {
      if code in rooms {
        var room := rooms[code];
        var r' := RemovePlayer(room, id);
        if Sound() {
          P.RemovePlayerInv(room, id);
        }
        if r'.players == [] {
          rooms := rooms - {code};
          WithoutDistinct(codes, code);
          codes := Without(codes, code);
        } else {
          Store(code, r');
        }
      }
    }

    /** `updateLeaderboard(room)`: one win for a winner still in the room,
      then every player's positive kill count, keyed by display name. */
    static method UpdateLeaderboard(b0: LB.Board, r: Room) returns (b: LB.Board)
      requires LB.DistinctNames(b0)
      ensures b == LB.Record(b0, r.players, r.winner)
    {
      b := CreditWinner(b0, r.players, r.winner);
      b := AddAllKills(b, r.players);
    }

    /** The first step of `updateLeaderboard`: the winner's credit. */
    static method CreditWinner(b0: LB.Board, ps: Players, winner: Option<string>) returns (b: LB.Board)
      requires LB.DistinctNames(b0)
      ensures LB.DistinctNames(b) && b == LB.CreditWin(b0, ps, winner)
    {
      b := b0;
      if winner.Some? && winner.value != "" {
        var w := Get(ps, winner.value);
        if w.Some? {
          assert LB.WinnerName(ps, winner) == Some(w.value.name);
          var stats := LB.StatsOf(b, w.value.name);
          b := LB.Set(b, w.value.name, stats.(wins := stats.wins + 1));
        }
      }
    }

    /** The loop of `updateLeaderboard` over the room's players. */
    static method AddAllKills(b0: LB.Board, ps: Players) returns (b: LB.Board)
      requires LB.DistinctNames(b0)
      ensures LB.DistinctNames(b) && b == LB.KillsUpTo(b0, ps, |ps|)
    {
      b := b0;
      var i := 0;
      while i < |ps|
        invariant 0 <= i <= |ps|
        invariant LB.DistinctNames(b) && b == LB.KillsUpTo(b0, ps, i)
      {
        b := AddKillsOf(b, ps[i]);
        i := i + 1;
      }
    }

    /** The body of that loop: a positive kill count goes to the name. */
    static method AddKillsOf(b0: LB.Board, p: Player) returns (b: LB.Board)
      requires LB.DistinctNames(b0)
      ensures LB.DistinctNames(b) && b == LB.AddKills(b0, p)
    {
      b := b0;
      if p.kills > 0 {
        var stats := LB.StatsOf(b, p.name);
        b := LB.Set(b, p.name, stats.(kills := stats.kills + p.kills));
      }
    }

    /** The tick's loop over the rooms in the order of their codes. */
    static method TickAll(rs: map<string, Room>, codes: seq<string>, b0: LB.Board, now: int)
      returns (m: map<string, Room>, b: LB.Board)
      requires LB.DistinctNames(b0)
      ensures m == Visit(rs, codes, r => TickRoom(r, now), |codes|)
      ensures b == Tally(b0, rs, codes, r => TickRoom(r, now), r => Ends(r, now), |codes|)
    {
      m, b := rs, b0;
      var i := 0;
      while i < |codes|
        invariant 0 <= i <= |codes|
        invariant m == Visit(rs, codes, r => TickRoom(r, now), i)
        invariant b == Tally(b0, rs, codes, r => TickRoom(r, now), r => Ends(r, now), i)
      {
        var code := codes[i];
        if code in m {
          var room := m[code];
          if room.gameState == Playing {
            var r' := TickRoom(room, now);
            m := m[code := r'];
            if r'.gameState == Ended {
              b := UpdateLeaderboard(b, r');
            }
          }
        }
        i := i + 1;
      }
    }

    /** The 30 Hz tick: every game in progress advances by 1000/30 ms, and
      one that ended on this tick is recorded on the leaderboard, in the
      order of the codes. */
    method Tick(now: int)
      requires Valid()
      modifies this
      ensures Valid() && codes == old(codes)
      ensures rooms == Visit(old(rooms), codes, r => TickRoom(r, now), |codes|)
      ensures board == Tally(old(board), old(rooms), codes, r => TickRoom(r, now), r => Ends(r, now), |codes|)
      ensures old(Sound()) ==> Sound()
    {
      var m, b := TickAll(rooms, codes, board, now);
      TickKeeps(rooms, codes, now);
      rooms, board := m, b;
    }
  }
}
