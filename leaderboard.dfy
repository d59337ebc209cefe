/** The session leaderboard of server/index.js: a `Map` from display name to
    `{ wins, kills }`, which remembers insertion order, kept as a sequence of
    entries with distinct names. */
module Leaderboard {
  import opened Opt
  import opened Roster

  datatype Stats = Stats(wins: int, kills: int)

  /** One published row, `{ name, ...stats }`. */
  datatype Entry = Entry(name: string, stats: Stats)

  type Board = seq<Entry>

  predicate DistinctNames(b: Board) {
    forall i, j | 0 <= i < j < |b| :: b[i].name != b[j].name
  }

  /** The position of the entry for `name`, if any. */
  function IndexOf(b: Board, name: string): (r: Option<nat>)
    ensures r.Some? ==> r.value < |b| && b[r.value].name == name
    ensures r.None? <==> forall j | 0 <= j < |b| :: b[j].name != name
  {
    if |b| == 0 then None
    else if b[0].name == name then Some(0)
    else match IndexOf(b[1..], name)
      case None => None
      case Some(k) => Some(k + 1)
  }

  /** `sessionLeaderboard.get(name) || { wins: 0, kills: 0 }` */
  function StatsOf(b: Board, name: string): (s: Stats)
    ensures IndexOf(b, name).None? ==> s == Stats(0, 0)
    ensures IndexOf(b, name).Some? ==> s == b[IndexOf(b, name).value].stats
  {
    match IndexOf(b, name)
    case None => Stats(0, 0)
    case Some(k) => b[k].stats
  }

  function Names(b: Board): (r: seq<string>)
    ensures |r| == |b| && forall i | 0 <= i < |b| :: r[i] == b[i].name
  {
    seq(|b|, i requires 0 <= i < |b| => b[i].name)
  }

  /** `sessionLeaderboard.set(name, s)`: a present name keeps its place, an
      absent one is appended; every other name keeps its statistics. */
  function Set(b: Board, name: string, s: Stats): (r: Board)
    requires DistinctNames(b)
    ensures DistinctNames(r)
    ensures StatsOf(r, name) == s
    ensures forall n | n != name :: StatsOf(r, n) == StatsOf(b, n)
    ensures Names(r) == Names(b) + (if IndexOf(b, name).Some? then [] else [name])
  {
    var r := if IndexOf(b, name).Some? then b[IndexOf(b, name).value := Entry(name, s)] else b + [Entry(name, s)];
    SetStats(b, name, s, r);
    r
  }

  lemma SetStats(b: Board, name: string, s: Stats, r: Board)
    requires DistinctNames(b)
    requires r == if IndexOf(b, name).Some? then b[IndexOf(b, name).value := Entry(name, s)] else b + [Entry(name, s)]
    ensures DistinctNames(r) && StatsOf(r, name) == s
    ensures forall n | n != name :: StatsOf(r, n) == StatsOf(b, n)
    ensures Names(r) == Names(b) + (if IndexOf(b, name).Some? then [] else [name])
  {
    var at := if IndexOf(b, name).Some? then IndexOf(b, name).value else |b|;
    IndexAt(r, at);
    forall n | n != name ensures StatsOf(r, n) == StatsOf(b, n) {
      if IndexOf(b, n).Some? {
        IndexAt(r, IndexOf(b, n).value);
        IndexAt(b, IndexOf(b, n).value);
      }
    }
  }

  /** With distinct names an entry is found exactly where it is. */
  lemma IndexAt(b: Board, k: nat)
    requires DistinctNames(b) && k < |b|
    ensures IndexOf(b, b[k].name) == Some(k)
  {
  }

  // ----------------------------------------------------------------------
  // updateLeaderboard

  /** The display name that earns a win: `room.winner` is a non-empty id
      and that player is still in the room. */
  function WinnerName(ps: Players, winner: Option<string>): (r: Option<string>)
    ensures r.Some? <==> winner.Some? && winner.value != "" && Has(ps, winner.value)
    ensures r.Some? ==> exists p | p in ps :: p.id == winner.value && p.name == r.value
  {
    if winner.Some? && winner.value != "" then
      match Get(ps, winner.value)
      case None => None
      case Some(p) => Some(p.name)
    else None
  }

  /** The winner's step: one more win under its name. */
  function CreditWin(b: Board, ps: Players, winner: Option<string>): (r: Board)
    requires DistinctNames(b)
    ensures DistinctNames(r)
  {
    match WinnerName(ps, winner)
    case None => b
    case Some(n) => Set(b, n, StatsOf(b, n).(wins := StatsOf(b, n).wins + 1))
  }

  /** One player's step: a positive kill count is added under its name. */
  function AddKills(b: Board, p: Player): (r: Board)
    requires DistinctNames(b)
    ensures DistinctNames(r)
  {
    if p.kills > 0 then Set(b, p.name, StatsOf(b, p.name).(kills := StatsOf(b, p.name).kills + p.kills))
    else b
  }

  /** The board after the kills of the first `n` players, in join order. */
  function KillsUpTo(b: Board, ps: Players, n: nat): (r: Board)
    requires DistinctNames(b) && n <= |ps|
    ensures DistinctNames(r)
  {
    if n == 0 then b else AddKills(KillsUpTo(b, ps, n - 1), ps[n - 1])
  }

  /** `updateLeaderboard(room)` on the room's players and winner. */
  function Record(b: Board, ps: Players, winner: Option<string>): (r: Board)
    requires DistinctNames(b)
    ensures DistinctNames(r)
  {
    KillsUpTo(CreditWin(b, ps, winner), ps, |ps|)
  }

  /** The kills the first `n` players called `name` bring in (positive
      counts only). */
  function KillsOf(ps: Players, name: string, n: nat): int
    requires n <= |ps|
  {
    if n == 0 then 0
    else KillsOf(ps, name, n - 1) + (if ps[n - 1].name == name && ps[n - 1].kills > 0 then ps[n - 1].kills else 0)
  }

  lemma AddKillsStats(b: Board, p: Player, name: string)
    requires DistinctNames(b)
    ensures StatsOf(AddKills(b, p), name) ==
      StatsOf(b, name).(kills := StatsOf(b, name).kills + if p.name == name && p.kills > 0 then p.kills else 0)
  {
  }

  lemma {:induction false} KillsUpToStats(b: Board, ps: Players, n: nat, name: string)
    requires DistinctNames(b) && n <= |ps|
    ensures StatsOf(KillsUpTo(b, ps, n), name) ==
      StatsOf(b, name).(kills := StatsOf(b, name).kills + KillsOf(ps, name, n))
  {
    if n > 0 {
      KillsUpToStats(b, ps, n - 1, name);
      AddKillsStats(KillsUpTo(b, ps, n - 1), ps[n - 1], name);
    }
  }

  /** `updateLeaderboard` adds exactly one win to the name of a winner still
      in the room, adds to each name the positive kill counts of the players
      carrying it, and leaves every other name's statistics alone. */
  lemma RecordStats(b: Board, ps: Players, winner: Option<string>, name: string)
    requires DistinctNames(b)
    ensures StatsOf(Record(b, ps, winner), name) ==
      Stats(StatsOf(b, name).wins + (if WinnerName(ps, winner) == Some(name) then 1 else 0),
            StatsOf(b, name).kills + KillsOf(ps, name, |ps|))
  {
    CreditWinStats(b, ps, winner, name);
    KillsUpToStats(CreditWin(b, ps, winner), ps, |ps|, name);
  }

  lemma CreditWinStats(b: Board, ps: Players, winner: Option<string>, name: string)
    requires DistinctNames(b)
    ensures StatsOf(CreditWin(b, ps, winner), name) ==
      StatsOf(b, name).(wins := StatsOf(b, name).wins + if WinnerName(ps, winner) == Some(name) then 1 else 0)
  {
  }

  lemma AddKillsNames(b: Board, p: Player)
    requires DistinctNames(b)
    ensures Names(AddKills(b, p)) == Names(b) + if p.kills > 0 && IndexOf(b, p.name).None? then [p.name] else []
  {
  }

  /** Names already on the board keep their place; the names it gains are
      those of players with kills. */
  lemma {:induction false} KillsUpToNames(b: Board, ps: Players, n: nat)
    requires DistinctNames(b) && n <= |ps|
    ensures NamesFrom(Names(b), Names(KillsUpTo(b, ps, n)), ps, n)
  {
    if n > 0 {
      KillsUpToNames(b, ps, n - 1);
      AddKillsNames(KillsUpTo(b, ps, n - 1), ps[n - 1]);
      NamesFromStep(Names(b), Names(KillsUpTo(b, ps, n - 1)), Names(KillsUpTo(b, ps, n)), ps, n);
    }
  }

  /** `r` starts with the names `a` and every name after them is that of one
      of the first n players, with kills. */
  predicate NamesFrom(a: seq<string>, r: seq<string>, ps: Players, n: nat)
    requires n <= |ps|
  {
    |a| <= |r| && r[..|a|] == a &&
    forall i | |a| <= i < |r| :: Killer(ps, n, r[i])
  }

  /** One of the first n players is called `name` and has kills. */
  predicate Killer(ps: Players, n: nat, name: string)
    requires n <= |ps|
  {
    exists j | 0 <= j < n :: ps[j].kills > 0 && ps[j].name == name
  }

  lemma NamesFromStep(a: seq<string>, r1: seq<string>, r: seq<string>, ps: Players, n: nat)
    requires 0 < n <= |ps| && NamesFrom(a, r1, ps, n - 1)
    requires r == r1 || (ps[n - 1].kills > 0 && r == r1 + [ps[n - 1].name])
    ensures NamesFrom(a, r, ps, n)
  {
    assert r[..|a|] == r1[..|a|];
    forall i | |a| <= i < |r|
      ensures Killer(ps, n, r[i])
    {
      if i < |r1| {
        assert Killer(ps, n - 1, r1[i]);
        var j :| 0 <= j < n - 1 && ps[j].kills > 0 && ps[j].name == r1[i];
        assert r[i] == r1[i];
      } else {
        assert ps[n - 1].name == r[i];
      }
    }
  }

  lemma RecordNames(b: Board, ps: Players, winner: Option<string>)
    requires DistinctNames(b)
    ensures var r := Record(b, ps, winner);
      |b| <= |r| && Names(r)[..|b|] == Names(b) &&
      forall i | |b| <= i < |r| ::
        WinnerName(ps, winner) == Some(r[i].name) ||
        exists j | 0 <= j < |ps| :: ps[j].kills > 0 && ps[j].name == r[i].name
  {
    var c := CreditWin(b, ps, winner);
    KillsUpToNames(c, ps, |ps|);
    var r := Record(b, ps, winner);
    assert Names(r)[..|b|] == Names(c)[..|b|] == Names(b);
    forall i | |b| <= i < |r|
      ensures WinnerName(ps, winner) == Some(r[i].name) ||
        exists j | 0 <= j < |ps| :: ps[j].kills > 0 && ps[j].name == r[i].name
    {
      assert r[i].name == Names(r)[i];
      if i < |c| {
        assert Names(r)[i] == Names(c)[i] == c[i].name;
      }
    }
  }

  // ----------------------------------------------------------------------
  // The ranking published by sendStats

  /** `a` comes strictly before `b` under the comparator
      `b.wins - a.wins || b.kills - a.kills`. */
  predicate Outranks(a: Entry, b: Entry) {
    a.stats.wins > b.stats.wins || (a.stats.wins == b.stats.wins && a.stats.kills > b.stats.kills)
  }

  predicate Sorted(s: Board) {
    forall i, j | 0 <= i < j < |s| :: !Outranks(s[j], s[i])
  }

  /** The entries of `s` whose statistics are exactly `k`, in order. */
  function Tied(s: Board, k: Stats): (r: Board)
    ensures |r| <= |s|
  {
    if s == [] then [] else (if s[0].stats == k then [s[0]] else []) + Tied(s[1..], k)
  }

  lemma {:induction false} TiedConcat(a: Board, b: Board, k: Stats)
    ensures Tied(a + b, k) == Tied(a, k) + Tied(b, k)
  {
    if a == [] {
      assert a + b == b;
    } else {
      assert (a + b)[1..] == a[1..] + b;
      TiedConcat(a[1..], b, k);
    }
  }

  /** Inserts `x`, which came after every element of the sorted `s`, behind
      all elements it does not outrank: the step of a stable sort. */
  function Insert(s: Board, x: Entry): (r: Board)
    ensures |r| == |s| + 1
  {
    if s == [] then [x]
    else if Outranks(x, s[0]) then [x] + s
    else [s[0]] + Insert(s[1..], x)
  }

  lemma {:induction false} InsertPerm(s: Board, x: Entry)
    ensures multiset(Insert(s, x)) == multiset(s) + multiset{x}
  {
    if s != [] && !Outranks(x, s[0]) {
      InsertPerm(s[1..], x);
      assert s == [s[0]] + s[1..];
    }
  }

  lemma {:induction false} InsertSorted(s: Board, x: Entry)
    requires Sorted(s)
    ensures Sorted(Insert(s, x))
  {
    if s != [] && !Outranks(x, s[0]) {
      InsertSorted(s[1..], x);
      var r := Insert(s, x);
      InsertPerm(s[1..], x);
      forall j | 0 < j < |r| ensures !Outranks(r[j], r[0]) {
        assert r[j] in multiset(Insert(s[1..], x));
      }
    }
  }

  /** Nothing `x` outranks has its statistics. */
  lemma OutrankedNotTied(s: Board, x: Entry)
    requires Sorted(s) && s != [] && Outranks(x, s[0])
    ensures Tied(s, x.stats) == []
    decreases |s|
  {
    if |s| > 1 {
      OutrankedNotTied(s[1..], x);
    }
  }

  lemma {:induction false} InsertTied(s: Board, x: Entry, k: Stats)
    requires Sorted(s)
    ensures Tied(Insert(s, x), k) == Tied(s, k) + (if x.stats == k then [x] else [])
  {
    if s == [] {
    } else if Outranks(x, s[0]) {
      if x.stats == k {
        OutrankedNotTied(s, x);
      }
      TiedConcat([x], s, k);
    } else {
      InsertTied(s[1..], x, k);
      TiedConcat([s[0]], Insert(s[1..], x), k);
      TiedConcat([s[0]], s[1..], k);
      assert [s[0]] + s[1..] == s;
    }
  }

  /** `Array.from(sessionLeaderboard.entries()).map(...).sort(cmp)`, with the
      stable sort that the language requires of `Array.prototype.sort`. */
  function Rank(b: Board): (r: Board)
    ensures |r| == |b|
  {
    if b == [] then [] else Insert(Rank(b[..|b| - 1]), b[|b| - 1])
  }

  /** The ranking is a permutation of the board. */
  lemma {:induction false} RankPerm(b: Board)
    ensures multiset(Rank(b)) == multiset(b)
  {
    if b != [] {
      RankPerm(b[..|b| - 1]);
      InsertPerm(Rank(b[..|b| - 1]), b[|b| - 1]);
      assert b == b[..|b| - 1] + [b[|b| - 1]];
    }
  }

  /** The ranking is ordered by wins, then kills, both descending. */
  lemma {:induction false} RankSorted(b: Board)
    ensures Sorted(Rank(b))
  {
    if b != [] {
      RankSorted(b[..|b| - 1]);
      InsertSorted(Rank(b[..|b| - 1]), b[|b| - 1]);
    }
  }

  /** Equal statistics keep their order on the board: the sort is stable. */
  lemma {:induction false} RankStable(b: Board, k: Stats)
    ensures Tied(Rank(b), k) == Tied(b, k)
  {
    if b != [] {
      var init, last := b[..|b| - 1], b[|b| - 1];
      RankStable(init, k);
      RankSorted(init);
      InsertTied(Rank(init), last, k);
      assert b == init + [last];
      TiedConcat(init, [last], k);
      assert Tied([last], k) == if last.stats == k then [last] else [];
    }
  }

  /** `.slice(0, 10)` of the ranking. */
  function Top(b: Board): (r: Board)
    ensures |r| == if |b| < 10 then |b| else 10
  {
    var s := Rank(b);
    s[..if |s| < 10 then |s| else 10]
  }

  /** The published list: at most ten entries, every one from the board,
      sorted, and no entry left off outranks one that is shown. */
  lemma TopSpec(b: Board)
    ensures var r := Top(b);
      |r| <= 10 && multiset(r) <= multiset(b) && Sorted(r) &&
      forall e | e in multiset(b) - multiset(r) :: forall i | 0 <= i < |r| :: !Outranks(e, r[i])
  {
    var s := Rank(b);
    RankSorted(b);
    RankPerm(b);
    HeadOfSorted(s, if |s| < 10 then |s| else 10);
  }

  /** The first n entries of a sorted list are sorted, and none of the rest
      outranks any of them. */
  lemma HeadOfSorted(s: Board, n: nat)
    requires Sorted(s) && n <= |s|
    ensures var r := s[..n];
      multiset(r) <= multiset(s) && Sorted(r) &&
      forall e | e in multiset(s) - multiset(r) :: forall i | 0 <= i < |r| :: !Outranks(e, r[i])
  {
    var r := s[..n];
    assert s == r + s[n..];
    assert multiset(s) == multiset(r) + multiset(s[n..]);
    forall e | e in multiset(s) - multiset(r)
      ensures forall i | 0 <= i < |r| :: !Outranks(e, r[i])
    {
      assert e in multiset(s[n..]);
      var j :| 0 <= j < |s[n..]| && s[n..][j] == e;
      assert s[n + j] == e;
    }
  }

}
