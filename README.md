# Bomberman room server: a verified model

This project models the core of a multiplayer Bomberman-style game server.

- `server/game/GameRoom.js` holds one room. It covers players joining and leaving, movement and collision, bombs with fuses and blast rays, the sudden-death spiral that walls up the arena, and the win condition.
- `server/index.js` keeps a registry of rooms by code and a session leaderboard. Its socket handlers guard and reset rooms, and a 30 Hz tick advances every room in play and records finished games on the leaderboard.

Modules, one per file:

| module | file | what it holds |
|---|---|---|
| `Opt` | option.dfy | `Option` |
| `Grid` | grid.dfy | the 15 by 13 cell grid, `isWall`, `isSoftBlock`, rounding of positions, `generateGrid` |
| `Roster` | roster.dfy | the player `Map` as an insertion-ordered sequence with distinct ids |
| `Spiral` | spiral.dfy | `getSuddenDeathCoords`, as a loop and as a function, with its inverse |
| `Rules` | rules.dfy | every room operation as a function from the room before to the room after |
| `RulesProofs` | rulesproofs.dfy | what those operations guarantee: blast deaths and kill credit, blast shape, the invariants every operation keeps, and behaviours that run against their evident intent |
| `Engine` | engine.dfy | class `GameRoom`: the same operations run in place, field by field and loop by loop, each proved to reach exactly the state the function in `Rules` gives |
| `Leaderboard` | leaderboard.dfy | `updateLeaderboard` and the top-ten ranking |
| `Server` | server.dfy | class `Hub`: the room registry, the handlers and the tick |

Representation choices:

- Positions are fixed point in hundredths of a cell. A movement step is 15, and `Math.round` becomes `Round(p) = (p + 50) / 100`.
- Fuse and blast timers count thirtieths of a millisecond, so the 1000/30 ms tick is exactly 1000 units. The fuse is 3000 ms, a bomb blocks its owner below 2500 ms, a blast lasts 500 ms and is dropped at 100 ms.
- Clock readings (`Date.now()`) are whole milliseconds and are passed in as `now`. Sudden death starts 120000 ms after the match starts and strikes every 500 ms.
- The random soft-block draw of `generateGrid` is a parameter `draw(x, y)`.

## Model

| member | source | states |
|---|---|---|
| Grid.IsWall | server/game/GameRoom.js:265-268 | outside the grid is a wall; inside, exactly the cells holding code 1 |
| Grid.IsSoftBlock | server/game/GameRoom.js:270-273 | true exactly on in-grid cells holding code 2 |
| Grid.Round | server/game/GameRoom.js:128-129 | the rounded cell is the one whose half-open span of width 100 holds the position |
| Grid.RoundUnique | server/game/GameRoom.js:276-277 | rounding is determined by that span, so it has one answer |
| Grid.GenerateGrid | server/game/GameRoom.js:24-43 | the nested loops build a 15 by 13 grid whose every cell is the pillar/safe-zone/draw choice for that cell |
| Grid.GeneratedStructure | server/game/GameRoom.js:24-43 | a generated grid holds only codes 0-2, walls exactly on the border and the even-even pillars, no soft block in a safe zone, and every non-pillar safe-zone cell empty |
| Grid.SpawnCornersOpen | server/game/GameRoom.js:29-37 | the two spawn corners used first and the two inward neighbours of each are always empty |
| Roster.Find | server/game/GameRoom.js:78 | the first position holding an id, and none exactly when no player has it |
| Roster.Get | server/game/GameRoom.js:104 | `players.get`: present exactly when some player has the id, and then that player |
| Roster.Put | server/game/GameRoom.js:73 | `players.set`: the id maps to the new player, others unchanged, a new id appended at the end, an old one replaced in place |
| Roster.Delete | server/game/GameRoom.js:79 | `players.delete`: the id is gone, every other id maps as before, the order of the rest is kept |
| Roster.FirstAliveId | server/game/GameRoom.js:258-261 | the id of the first living player in insertion order, and none exactly when nobody lives |
| Roster.AliveCountKill | server/game/GameRoom.js:194-201 | killing a living player lowers the living count by one |
| Spiral.GetSuddenDeathCoords | server/game/GameRoom.js:227-255 | the four side loops of every ring return exactly the walk `SpiralAt` |
| Spiral.ScanUp | server/game/GameRoom.js:233-241 | an ascending side yields the cell at which the counter meets the index, or the counter advanced by the side's length |
| Spiral.ScanDown | server/game/GameRoom.js:243-251 | the same for a descending side |
| Spiral.SpiralCovers | server/game/GameRoom.js:227-255 | every grid cell is visited, at the position `SpiralIndex` computes from its ring and side |
| Spiral.SpiralInjective | server/game/GameRoom.js:227-255 | the first 195 positions visit distinct cells |
| Spiral.SpiralVisitsOnce | server/game/GameRoom.js:227-255 | each of the first 195 positions lies in the grid and `SpiralIndex` inverts the walk there |
| Spiral.SpiralRevisitsCentre | server/game/GameRoom.js:227-255 | positions 195 and 196 revisit two centre cells, and the walk is undefined from position 197 on |
| Spiral.SpiralInGrid | server/game/GameRoom.js:227-255 | every cell the walk returns lies in the grid |
| Spiral.SpiralTopRow | server/game/GameRoom.js:233-236 | the walk starts along the top row, left to right |
| Rules.NewRoom | server/game/GameRoom.js:2-22 | an empty lobby with no host or winner, 4 players unless a setting is given, sudden death after 120000 ms |
| Rules.StartGame | server/game/GameRoom.js:93-100 | starts exactly when the caller hosts a room in the lobby, and then only the state and the start time change |
| Rules.CheckWinCondition | server/game/GameRoom.js:257-263 | changes at most the state and the winner |
| Rules.BombAt | server/game/GameRoom.js:284 | a bomb on the cell if there is one, and none exactly when no bomb lies there |
| Rules.Strike | server/game/GameRoom.js:191-203 | a blast cell is appended to the explosions, and only the players and the game's end can change otherwise |
| Rules.Burn | server/game/GameRoom.js:150 | the one bomb's timer goes down by `dt`; every other bomb and every other field is unchanged |
| Rules.Detonate | server/game/GameRoom.js:151-155 | the bomb is taken out of the list and the rest stay in order |
| Rules.Update | server/game/GameRoom.js:144-171 | a step keeps the room well formed and its player ids (what it does to the bombs, the explosions and the end of the game is `RulesProofs.UpdateSpec`) |
| Rules.RayStops | server/game/GameRoom.js:181-186 | once a ray has stopped, further cells change nothing |
| RulesProofs.CheckWinConditionSpec | server/game/GameRoom.js:257-263 | with more than one player and at most one alive the game ends and the first living player wins; otherwise nothing changes |
| RulesProofs.KillSpec | server/game/GameRoom.js:194-201 | a kill marks the player dead, credits the owner when it is someone else, and changes nothing else |
| RulesProofs.KillJudged | server/game/GameRoom.js:194-201 | after killing a living player the game has ended with the first living player as winner exactly when at most one of more than one player is left alive; otherwise the state and the winner are unchanged |
| RulesProofs.OneDeathJudged | server/game/GameRoom.js:257-263 | one death followed by the win check ends the game with the first living player as winner exactly when at most one of more than one player is left alive; otherwise the state and the winner are unchanged |
| RulesProofs.JudgedTrans | server/game/GameRoom.js:257-263 | two rounds of deaths, each followed by the win check, end the game as one round would: the check after the last death decides |
| RulesProofs.StrikeSpec | server/game/GameRoom.js:191-203 | exactly the living players on the cell die, the owner gains one kill per victim other than itself, nothing else about any player changes, and one blast cell is added; if someone died and at most one of more than one player is left alive, the game has ended with the first living player as winner, and otherwise the state and the winner are unchanged |
| RulesProofs.OrphanStrikeNoCredit | server/game/GameRoom.js:196-198 | a blast whose owner has left credits nobody |
| RulesProofs.RayStepShape | server/game/GameRoom.js:179-186 | one ray cell stops the ray exactly when it is a wall, outside or a soft block; it gets a blast cell unless it is a wall; a soft block becomes empty |
| RulesProofs.RayUpToShape | server/game/GameRoom.js:178-187 | a ray covers the cells up to its first blocking cell, stopping before a wall and after a soft block, and clears only that soft block |
| RulesProofs.RayArms | server/game/GameRoom.js:178-187 | one ray keeps the earlier explosions, adds only blast cells on the bomb's arms within range, and clears only soft blocks on those arms |
| RulesProofs.ExplodeSpec | server/game/GameRoom.js:173-189 | a blast starts at the bomb's own cell, puts every other blast cell on the arms within range, clears only soft blocks there, and changes players only by deaths and the owner's kills; if someone died and at most one of more than one player is left alive, the game has ended with the first living player as winner, and otherwise the state and the winner are unchanged |
| RulesProofs.RayUpToFated | server/game/GameRoom.js:178-187 | a ray changes players only by deaths and the owner's kills |
| RulesProofs.CrushUpToSpec | server/game/GameRoom.js:216-221 | the sudden-death loop kills exactly the living players on the new wall, with no kill credit |
| RulesProofs.CrushUpToJudged | server/game/GameRoom.js:216-221 | after that loop, if someone died and at most one of more than one player is left alive, the game has ended with the first living player as winner; otherwise the state and the winner are unchanged |
| RulesProofs.SuddenDeathSpec | server/game/GameRoom.js:205-225 | nothing happens within 500 ms of the last strike; otherwise the next spiral cell becomes a wall, the index advances, and exactly the players on it die; past the end of the spiral only the strike time moves; the game ends after those deaths exactly as the win check says |
| RulesProofs.UpdateGates | server/game/GameRoom.js:144-171 | a room not in play is unchanged; before the sudden-death delay the sudden-death fields are unchanged |
| RulesProofs.FadeAll | server/game/GameRoom.js:159-165 | the reverse splicing loop over the explosions keeps, in their order, exactly those whose timer lowered by `dt` stays above 100 ms, each with that lowered timer (`Faded`) |
| RulesProofs.FadedKeeps | server/game/GameRoom.js:159-165 | an explosion whose lowered timer stays above 100 ms is still listed after the loop |
| RulesProofs.TickBombsDownBombs | server/game/GameRoom.js:148-157 | the reverse bomb loop leaves, in their order, exactly the bombs whose fuse lowered by `dt` stays above zero, each with that lowered fuse (`Burned`) |
| RulesProofs.TickBombsDownBlasts | server/game/GameRoom.js:148-157 | the bomb loop only appends to the explosions, and every bomb whose fuse runs out leaves a fresh blast on its own cell among them |
| RulesProofs.TickBombJudged | server/game/GameRoom.js:148-157 | one pass of the bomb loop ends the game as the win check after its last death says; handing the bomb back decides nothing |
| RulesProofs.UpdateJudged | server/game/GameRoom.js:144-171 | a step ends the game exactly when it kills someone and leaves at most one of more than one player alive, with the first living player as winner; otherwise the state and the winner are unchanged |
| RulesProofs.UpdateSpec | server/game/GameRoom.js:144-171 | during a game a step leaves exactly the `Burned` bombs, and as explosions the surviving old ones followed by the surviving new blasts, among them the centre of every bomb that went off while a step is shorter than 400 ms; and it ends the game as `UpdateJudged` says |
| RulesProofs.DetonateSound | server/game/GameRoom.js:151-155 | detonating a bomb and returning it to its owner keeps every invariant |
| RulesProofs.TickBombsDownSound | server/game/GameRoom.js:148-157 | the bomb loop keeps every invariant and can only end the game |
| RulesProofs.SuddenDeathSound | server/game/GameRoom.js:205-225 | a sudden-death strike keeps every invariant and can only end the game |
| RulesProofs.UpdateInv | server/game/GameRoom.js:144-171 | a step keeps the invariants: bombs accounted to their owners, within budget, one per cell, a host present, and `ROUND_END` never entered |
| RulesProofs.NewRoomInv | server/game/GameRoom.js:2-22 | a new room satisfies the invariants |
| RulesProofs.AddPlayerSpec | server/game/GameRoom.js:45-75 | refused exactly outside the lobby or when full; otherwise the new player has the given or default name, the spawn for its join order, fresh counters, and hosts exactly when the room was empty |
| RulesProofs.AddPlayerInv | server/game/GameRoom.js:45-75 | joining keeps the invariants |
| RulesProofs.RemovePlayerSpec | server/game/GameRoom.js:77-91 | the player is gone, the first remaining player takes over as host when the host left, and a game in play ends exactly when at most one of more than one remaining players lives |
| RulesProofs.RemovePlayerInv | server/game/GameRoom.js:77-91 | leaving keeps the invariants |
| RulesProofs.StartGameInv | server/game/GameRoom.js:93-100 | starting keeps the invariants |
| RulesProofs.CollisionSpec | server/game/GameRoom.js:275-289 | a position is free exactly when its cell is in the grid and empty and any bomb there is the mover's own and freshly placed |
| RulesProofs.MovePlayerSpec | server/game/GameRoom.js:102-120 | a living player in a game in play moves one step exactly when the target is free; nothing else changes |
| RulesProofs.MovePlayerInv | server/game/GameRoom.js:102-120 | moving keeps the invariants |
| RulesProofs.PlaceBombSpec | server/game/GameRoom.js:122-142 | a bomb is placed on the rounded cell exactly when a living player in play has bombs left and the cell is free; its count goes up by one |
| RulesProofs.PlaceBombInv | server/game/GameRoom.js:122-142 | placing a bomb keeps the invariants |
| RulesProofs.FitsAll | server/game/GameRoom.js:122-142 | the bomb accounting holds exactly when every player's count matches its bombs and its budget |
| RulesProofs.LoneGameStays | server/game/GameRoom.js:257-263 | a game in progress with at most one player stays in progress with at most one player through a tick, a leave, a move or a bomb, and a join is refused and changes nothing (the refusal is GameRoom.js:46) |
| RulesProofs.LoneGameNeverEnds | server/game/GameRoom.js:257-263 | no sequence of ticks, leaves, moves, bombs and joins ends a game in progress that has at most one player |
| RulesProofs.LastTwoNeverEnd | server/game/GameRoom.js:257-263 | when one of two players leaves a game in progress, the game stays in progress, and no later sequence of ticks, leaves, moves, bombs and joins ends it |
| RulesProofs.ThreeCanEnd | server/game/GameRoom.js:88-90 | a departure from three can end the game with a winner |
| RulesProofs.SpawnCollision | server/game/GameRoom.js:54-55 | after a leave and a join, two players share a spawn |
| Engine.GameRoom.constructor | server/game/GameRoom.js:2-22 | the fields of a new room on a generated grid |
| Engine.GameRoom.AddPlayer | server/game/GameRoom.js:45-75 | the room and the result are those of `Rules.AddPlayer` |
| Engine.GameRoom.RemovePlayer | server/game/GameRoom.js:77-91 | the new state is `Rules.RemovePlayer` of the old |
| Engine.GameRoom.StartGame | server/game/GameRoom.js:93-100 | the new state and the result are `Rules.StartGame` of the old |
| Engine.GameRoom.MovePlayer | server/game/GameRoom.js:102-120 | the new state is `Rules.MovePlayer` of the old |
| Engine.GameRoom.PlaceBomb | server/game/GameRoom.js:122-142 | the new state is `Rules.PlaceBomb` of the old |
| Engine.GameRoom.Update | server/game/GameRoom.js:144-171 | the new state is `Rules.Update` of the old; during a game the bombs become the `Burned` bombs, and the game ends after the step's deaths as the win check says |
| Engine.GameRoom.TickBombs | server/game/GameRoom.js:148-157 | the reverse bomb loop reaches `TickBombsDown` of the old state, whose bombs are exactly the `Burned` old bombs |
| Engine.GameRoom.FadeExplosions | server/game/GameRoom.js:159-165 | the reverse blast loop changes only the explosions, and leaves exactly the `Faded` old explosions |
| Engine.GameRoom.ExplodeBomb | server/game/GameRoom.js:173-189 | the new state is `Explode` of the old |
| Engine.GameRoom.BlastRay | server/game/GameRoom.js:178-187 | the ray loop reaches `Ray` of the old state |
| Engine.GameRoom.CreateExplosionCell | server/game/GameRoom.js:191-203 | the new state is `Strike` of the old |
| Engine.GameRoom.ApplySuddenDeath | server/game/GameRoom.js:205-225 | the new state is `Rules.ApplySuddenDeath` of the old |
| Engine.GameRoom.CheckWinCondition | server/game/GameRoom.js:257-263 | the new state is `Rules.CheckWinCondition` of the old |
| Leaderboard.IndexOf | server/index.js:53 | the entry holding a name, and none exactly when no entry does |
| Leaderboard.Set | server/index.js:55 | `sessionLeaderboard.set`: the name gets the stats, other names keep theirs, a new name is appended |
| Leaderboard.WinnerName | server/index.js:50-52 | the winner's name is found exactly when the winner id is set and still in the room |
| Leaderboard.AddKillsStats | server/index.js:58-64 | one player adds its kills to its own name when it has any |
| Leaderboard.RecordStats | server/index.js:49-66 | after recording, every name has one more win if it is the winner's, plus the kills of every player of that name |
| Leaderboard.RecordNames | server/index.js:49-66 | recording keeps the old names in order and only appends names of the winner or of players with kills |
| Leaderboard.RankPerm | server/index.js:72-74 | ranking is a permutation of the entries |
| Leaderboard.RankSorted | server/index.js:74 | ranking orders by wins and then kills, both descending |
| Leaderboard.RankStable | server/index.js:74 | entries with equal stats keep their insertion order |
| Leaderboard.TopSpec | server/index.js:72-75 | the top ten are sorted, drawn from the board, and no entry left out outranks any of them |
| Server.Upper | server/index.js:99 | the code upper-cased letter by letter |
| Server.UpperIdempotent | server/index.js:99 | upper-casing twice is upper-casing once |
| Server.Without | server/index.js:209 | `rooms.delete`: exactly the other codes remain |
| Server.WithoutDistinct | server/index.js:209 | deleting keeps the codes distinct |
| Server.Revived | server/index.js:169-174 | every player alive, with no bombs out, no kills and not ready |
| Server.RestartAsWritten | server/index.js:154-179 | the reset as written throws before the players are reset |
| Server.RestartAsWrittenUnaccounted | server/index.js:154-179 | the reset as written leaves a bomb counted that is no longer on the board, which the intended reset does not |
| Server.RestartInv | server/index.js:154-179 | the intended reset restores every invariant with every player alive and without kills |
| Server.TickRoom | server/index.js:221-222 | a room not in play is left as it is, and validity is kept |
| Server.VisitSpec | server/index.js:219-232 | the tick loop steps every registered room exactly once and leaves the rest for later |
| Server.TallySpec | server/index.js:219-232 | the leaderboard after the loop is the records of exactly the rooms the tick took from play to the end, in registry order |
| Server.QuietTally | server/index.js:225-226 | when no room ends, the leaderboard is unchanged |
| Server.TickKeeps | server/index.js:219-232 | a tick keeps every room valid and, when all were sound, sound |
| Server.DepartureEndingUnrecorded | server/index.js:204-216 | a game ended by a departure is never recorded by a later tick |
| Server.Hub.constructor | server/index.js:23-34 | no rooms, and the loaded leaderboard |
| Server.Hub.CreateRoom | server/index.js:85-96 | returns the grid generated from `draw`; the code now holds exactly the creator's `addPlayer` on a new room over that grid and the setting, a lobby hosted by the creator; a new code is appended at the end of the registry order and a known code keeps its place; other codes are untouched |
| Server.Hub.JoinRoom | server/index.js:98-115 | an unknown code fails and a full or running room refuses; otherwise the player joins that room and nothing else changes |
| Server.Hub.StartGame | server/index.js:117-122 | started exactly when the room exists and its host starts it from the lobby |
| Server.Hub.Move | server/index.js:124-127 | the room, if any, is moved as `movePlayer` gives |
| Server.Hub.PlaceBomb | server/index.js:129-132 | the room, if any, places a bomb as `placeBomb` gives |
| Server.Hub.ToggleReady | server/index.js:134-139 | throws in any existing room, which has no `toggleReady`, and is ignored otherwise |
| Server.Hub.KickPlayer | server/index.js:141-152 | acts exactly when the caller hosts the room and the target is someone else, and then removes the target |
| Server.Hub.RestartMatch | server/index.js:154-179 | acts exactly when the caller hosts an ended room, which becomes the intended reset on the returned grid, freshly generated from `draw`; otherwise nothing changes and no grid is generated; invariants are kept |
| Server.Hub.NextRound | server/index.js:181-202 | acts exactly when the caller hosts a room at `ROUND_END`, which then becomes the reset with the round advanced on the returned grid, freshly generated from `draw`; no sound room is ever at `ROUND_END` |
| Server.Hub.Disconnect | server/index.js:204-216 | the player leaves its room; an emptied room is removed from the registry |
| Server.Hub.Tick | server/index.js:219-232 | every room is stepped, and the leaderboard records each room this tick ended |
| Server.Hub.UpdateLeaderboard | server/index.js:49-66 | the two loops give `Record` of the board |
| Server.Hub.AddAllKills | server/index.js:58-64 | the kill loop gives `KillsUpTo` over all players |

## Left out

- `getPlayerColor` and the `avatar` argument only choose how a player looks and are not modelled.
- `getState` only builds a snapshot to send to clients; the `Snapshot` of the class plays its part in the proofs.
- Socket.IO rooms, emits, `sendStats`' online and room counts, and console logs are I/O and are left out.
- Loading and saving the leaderboard file is I/O. The hub starts from a loaded board and `UpdateLeaderboard` returns the new board without writing it.
- `setInterval` scheduling and `Date.now()` become the `now` parameter; each call of `Tick` is one interval.
- `Math.random` in `generateGrid` becomes the `draw` parameter.
- `generateRoomCode` is random, so `CreateRoom` takes the code as a parameter.
- `socket.roomCode` becomes a `code` parameter of each handler (server/index.js:91, :106, :205). So the model does not capture that a socket which creates or joins a second room leaves its player behind in the first, where `disconnect` never removes it.
- Server.Hub.ToggleReady and Server.RestartAsWritten: an exception thrown in a handler is not caught, and under Node's defaults it ends the whole server process. The model stops at the throw and keeps the hub as it was at that point; what follows describes the server only if the process survives.
- Floating-point positions and timers become fixed-point integers. The scales above make every constant and the 1000/30 ms step exact. The source's doubles are not exact, and with 1000/30 ms ticks and steps of 0.15 they cross three thresholds one step apart from the model, as the next three lines say.
- Rules.CheckCollision: a bomb blocks its owner from the 15th tick in the source, where 3000 − 15 × (1000/30) is just below 2500 (server/game/GameRoom.js:286), and from the 16th tick in the model, where 90000 − 15000 is not below 75000.
- Rules.Fade: a blast is kept after 12 ticks and dropped at the 13th in the source, where 500 − 12 × (1000/30) is just above 100 (server/game/GameRoom.js:162), and dropped at the 12th in the model, where 15000 − 12000 equals the fade mark.
- Grid.Round: a position reached by ten steps of 0.15 from 1 is 2.4999999999999991 in the source and rounds to cell 2, while the model holds exactly 250 and rounds to cell 3. Collision, the bomb cell and blast hits can therefore differ at half-cell positions reached by accumulated steps.
- Server.Hub: rooms are values in a map, so the model does not capture that a handler and the tick share one mutable room object.
- Server.Upper: only ASCII letters are upper-cased; `toUpperCase` also maps other Unicode letters.
- Server.TickRoom: it steps only rooms that are well formed; every room the hub holds is, by `Hub.Valid`.
- Server.Hub.ToggleReady: `GameRoom` has no `toggleReady` method, so the handler throws in any existing room; the model reports that as `Threw` and changes nothing.
- Server.Hub.RestartMatch: it performs the intended reset; the reset as written is `RestartAsWritten` (see Findings).
- The client and every other file of the repository are not part of this model.

## Findings

| source | as written | input that shows it | evidently intended | confidence | as-written member | corrected member |
|---|---|---|---|---|---|---|
| server/index.js:165-174 | `room.roundWins.clear()` is called, but no room has a `roundWins` field, so the handler throws after resetting the room fields and before resetting the players | an ended room in which player "a" still has one bomb on the board: under Node's defaults the uncaught error ends the server; if the process survives, the board is empty after the restart, but "a" still counts one active bomb and keeps its kills and death | the room and every player are reset to a fresh lobby | not executed | Server.RestartAsWrittenUnaccounted | Server.RestartInv |

Other behaviours are modelled as written and stated as lemmas:

- The sudden-death spiral revisits two centre cells at positions 195 and 196 before it runs out (`Spiral.SpiralRevisitsCentre`).
- Nothing in a room ever enters `ROUND_END`, so `nextRound` never acts (`Server.Hub.NextRound`).
- Spawns go by the number of players present, so a leave and a join can put two players on one spawn (`RulesProofs.SpawnCollision`).
- `createRoom` overwrites any room already stored under the same code (`Server.Hub.CreateRoom`).
- A bomb whose owner has left credits nobody for its kills (`RulesProofs.OrphanStrikeNoCredit`).
- A game ended by a departure is never recorded on the leaderboard, since the tick only records a room it took from play to the end (`RulesProofs.ThreeCanEnd`, `Server.DepartureEndingUnrecorded`).
- When one of two players leaves a running game, the win condition needs more than one player and nobody can join outside the lobby, so no later tick, leave, move, bomb or join ends the game (`RulesProofs.LastTwoNeverEnd`, `RulesProofs.LoneGameNeverEnds`).
