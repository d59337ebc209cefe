/** The players of a room: the JavaScript `Map` from socket id to player
    record, which remembers insertion order (server/game/GameRoom.js). It is
    kept as a sequence of records in insertion order whose ids are distinct. */
module Roster {
  import opened Opt

  /** A player record. Positions are fixed-point (see Grid.Scale); `ready`
      is `None` while the source leaves the field undefined. */
  datatype Player = Player(
    id: string,
    name: string,
    x: int,
    y: int,
    alive: bool,
    ready: Option<bool>,
    maxBombs: int,
    activeBombs: int,
    bombRange: int,
    isHost: bool,
    kills: int)

  type Players = seq<Player>

  /** A `Map` never holds a key twice. */
  predicate DistinctIds(ps: Players) {
    forall i, j | 0 <= i < j < |ps| :: ps[i].id != ps[j].id
  }

  /** The position of the entry with key `id`, if any (the first one). */
  function Find(ps: Players, id: string): (r: Option<nat>)
    ensures r.Some? ==> r.value < |ps| && ps[r.value].id == id
    ensures r.Some? ==> forall j | 0 <= j < r.value :: ps[j].id != id
    ensures r.None? <==> forall j | 0 <= j < |ps| :: ps[j].id != id
  {
    if |ps| == 0 then None
    else if ps[0].id == id then Some(0)
    else match Find(ps[1..], id)
      case None => None
      case Some(k) => Some(k + 1)
  }

  /** With distinct keys an entry is found exactly where its key is. */
  lemma FindAt(ps: Players, k: nat)
    requires DistinctIds(ps) && k < |ps|
    ensures Find(ps, ps[k].id) == Some(k)
  {
  }

  /** `players.get(id)` */
  function Get(ps: Players, id: string): (r: Option<Player>)
    ensures r.Some? <==> exists j | 0 <= j < |ps| :: ps[j].id == id
    ensures r.Some? ==> r.value in ps && r.value.id == id
  {
    match Find(ps, id)
    case None => None
    case Some(k) => Some(ps[k])
  }

  predicate Has(ps: Players, id: string) {
    Find(ps, id).Some?
  }

  /** `players.set(p.id, p)`: a present key keeps its place and takes the new
      record; an absent key is appended at the end. */
  function Put(ps: Players, p: Player): (r: Players)
    requires DistinctIds(ps)
    ensures DistinctIds(r)
    ensures Get(r, p.id) == Some(p)
    ensures forall q | q != p.id :: Get(r, q) == Get(ps, q)
    ensures !Has(ps, p.id) ==> r == ps + [p]
    ensures Has(ps, p.id) ==> |r| == |ps| && r[Find(ps, p.id).value] == p
    ensures Has(ps, p.id) ==> forall j | 0 <= j < |ps| && j != Find(ps, p.id).value :: r[j] == ps[j]
  {
    var r := if Has(ps, p.id) then ps[Find(ps, p.id).value := p] else ps + [p];
    PutGet(ps, p, r);
    r
  }

  lemma PutGet(ps: Players, p: Player, r: Players)
    requires DistinctIds(ps)
    requires r == if Has(ps, p.id) then ps[Find(ps, p.id).value := p] else ps + [p]
    ensures DistinctIds(r) && Get(r, p.id) == Some(p)
    ensures forall q | q != p.id :: Get(r, q) == Get(ps, q)
  {
    var at := if Has(ps, p.id) then Find(ps, p.id).value else |ps|;
    FindAt(r, at);
    forall q | q != p.id ensures Get(r, q) == Get(ps, q) {
      if Has(ps, q) {
        FindAt(r, Find(ps, q).value);
      }
    }
  }

  /** `players.delete(id)`: the entry goes, the others keep their order. */
  function Delete(ps: Players, id: string): (r: Players)
    requires DistinctIds(ps)
    ensures DistinctIds(r)
    ensures !Has(r, id)
    ensures forall q | q != id :: Get(r, q) == Get(ps, q)
    ensures !Has(ps, id) ==> r == ps
    ensures Has(ps, id) ==> |r| == |ps| - 1
    ensures Has(ps, id) ==> r == ps[..Find(ps, id).value] + ps[Find(ps, id).value + 1..]
  {
    var r := if Has(ps, id) then ps[..Find(ps, id).value] + ps[Find(ps, id).value + 1..] else ps;
    DeleteGet(ps, id, r);
    r
  }

  lemma DeleteGet(ps: Players, id: string, r: Players)
    requires DistinctIds(ps)
    requires r == if Has(ps, id) then ps[..Find(ps, id).value] + ps[Find(ps, id).value + 1..] else ps
    ensures DistinctIds(r) && !Has(r, id)
    ensures forall q | q != id :: Get(r, q) == Get(ps, q)
  {
    if Has(ps, id) {
      var k := Find(ps, id).value;
      RemoveAt(ps, k, r);
      forall q | q != id ensures Get(r, q) == Get(ps, q) {
        RemovedGet(ps, k, r, q);
      }
    }
  }

  /** A key other than the removed one is looked up as before. */
  lemma RemovedGet(ps: Players, k: nat, r: Players, q: string)
    requires DistinctIds(ps) && k < |ps| && r == ps[..k] + ps[k + 1..] && q != ps[k].id
    ensures Get(r, q) == Get(ps, q)
  {
    RemoveAt(ps, k, r);
    match Find(ps, q)
    case None =>
      assert forall j | 0 <= j < |r| :: r[j].id != q;
    case Some(j) =>
      var at := if j < k then j else j - 1;
      assert r[at] == ps[j];
      FindAt(r, at);
  }

  lemma RemoveAt(ps: Players, k: nat, r: Players)
    requires DistinctIds(ps) && k < |ps| && r == ps[..k] + ps[k + 1..]
    ensures |r| == |ps| - 1
    ensures forall j | 0 <= j < |r| :: r[j] == (if j < k then ps[j] else ps[j + 1])
    ensures DistinctIds(r)
    ensures forall j | 0 <= j < |r| :: r[j].id != ps[k].id
  {
    assert forall j | 0 <= j < |r| :: r[j] == (if j < k then ps[j] else ps[j + 1]);
  }

  /** The keys of the map, in insertion order. */
  function Ids(ps: Players): (r: seq<string>)
    ensures |r| == |ps|
  {
    if ps == [] then [] else [ps[0].id] + Ids(ps[1..])
  }

  lemma {:induction false} IdsAt(ps: Players, k: nat)
    requires k < |ps|
    ensures Ids(ps)[k] == ps[k].id
    decreases k
  {
    if k > 0 {
      IdsAt(ps[1..], k - 1);
    }
  }

  /** The keys alone decide whether no key is held twice. */
  lemma SameIdsDistinct(ps: Players, qs: Players)
    requires Ids(ps) == Ids(qs) && DistinctIds(ps)
    ensures DistinctIds(qs)
  {
    forall i, j | 0 <= i < j < |qs| ensures qs[i].id != qs[j].id {
      IdsAt(ps, i); IdsAt(ps, j); IdsAt(qs, i); IdsAt(qs, j);
    }
  }

  /** Writing a record back under its own key keeps the keys. */
  lemma {:induction false} IdsUpdate(ps: Players, k: nat, p: Player)
    requires k < |ps| && p.id == ps[k].id
    ensures Ids(ps[k := p]) == Ids(ps)
    decreases k
  {
    if k == 0 {
      assert ps[k := p][1..] == ps[1..];
    } else {
      assert ps[k := p][1..] == ps[1..][k - 1 := p];
      IdsUpdate(ps[1..], k - 1, p);
    }
  }

  /** Lookups depend on the keys alone. */
  lemma {:induction false} FindByIds(ps: Players, qs: Players, id: string)
    requires Ids(ps) == Ids(qs)
    ensures Find(ps, id) == Find(qs, id)
    decreases |ps|
  {
    if ps != [] {
      assert Ids(ps)[0] == ps[0].id && Ids(qs)[0] == qs[0].id;
      assert Ids(ps[1..]) == Ids(ps)[1..] && Ids(qs[1..]) == Ids(qs)[1..];
      FindByIds(ps[1..], qs[1..], id);
    }
  }

  /** `Array.from(players.values()).filter(p => p.alive)` */
  function Alives(ps: Players): (r: Players)
    ensures |r| <= |ps|
    ensures forall p | p in r :: p.alive && p in ps
    ensures forall i | 0 <= i < |ps| && ps[i].alive :: ps[i] in r
  {
    if ps == [] then []
    else if ps[0].alive then [ps[0]] + Alives(ps[1..])
    else Alives(ps[1..])
  }

  /** The number of living players. */
  function AliveCount(ps: Players): (n: nat)
    ensures n <= |ps|
  {
    |Alives(ps)|
  }

  /** The living players depend only on the `alive` flags (and the ids, names, ... of those). */
  lemma AliveCountSameFlags(ps: Players, qs: Players)
    requires |ps| == |qs|
    requires forall i | 0 <= i < |ps| :: ps[i].alive == qs[i].alive
    ensures AliveCount(ps) == AliveCount(qs)
    decreases |ps|
  {
    if ps != [] {
      AliveCountSameFlags(ps[1..], qs[1..]);
    }
  }

  /** Killing one living player lowers the count by one. */
  lemma {:induction false} AliveCountKill(ps: Players, k: nat, p: Player)
    requires k < |ps| && ps[k].alive && !p.alive
    ensures AliveCount(ps[k := p]) == AliveCount(ps) - 1
    decreases |ps|
  {
    if k == 0 {
      assert ps[k := p][1..] == ps[1..];
    } else {
      assert ps[k := p][1..] == ps[1..][k - 1 := p];
      AliveCountKill(ps[1..], k - 1, p);
    }
  }

  /** qs is ps after some deaths: the same keys in the same order, and
      nobody alive in qs who was dead in ps. */
  predicate Mortal(ps: Players, qs: Players) {
    |qs| == |ps| && forall i | 0 <= i < |ps| :: qs[i].id == ps[i].id && (qs[i].alive ==> ps[i].alive)
  }

  /** Deaths only lower the living count, and a count that stayed the same
      means nobody died. */
  lemma {:induction false} AliveCountMortal(ps: Players, qs: Players)
    requires Mortal(ps, qs)
    ensures AliveCount(qs) <= AliveCount(ps)
    ensures AliveCount(qs) == AliveCount(ps) ==> forall i | 0 <= i < |ps| :: qs[i].alive == ps[i].alive
    decreases |ps|
  {
    if ps != [] {
      assert Mortal(ps[1..], qs[1..]);
      AliveCountMortal(ps[1..], qs[1..]);
      assert AliveCount(ps) == (if ps[0].alive then 1 else 0) + AliveCount(ps[1..]);
      assert AliveCount(qs) == (if qs[0].alive then 1 else 0) + AliveCount(qs[1..]);
      if AliveCount(qs) == AliveCount(ps) {
        forall i | 0 <= i < |ps| ensures qs[i].alive == ps[i].alive {
          if i > 0 {
            assert qs[1..][i - 1] == qs[i] && ps[1..][i - 1] == ps[i];
          }
        }
      }
    }
  }

  /** The first survivor depends only on the keys and the `alive` flags. */
  lemma {:induction false} FirstAliveSame(ps: Players, qs: Players)
    requires |ps| == |qs| && forall i | 0 <= i < |ps| :: qs[i].id == ps[i].id && qs[i].alive == ps[i].alive
    ensures FirstAliveId(qs) == FirstAliveId(ps)
    decreases |ps|
  {
    if ps != [] {
      FirstAliveSame(ps[1..], qs[1..]);
    }
  }

  /** The id of the first living player in insertion order, as `alives[0].id`. */
  function FirstAliveId(ps: Players): (r: Option<string>)
    ensures r.None? <==> forall i | 0 <= i < |ps| :: !ps[i].alive
    ensures r.Some? ==> exists k | 0 <= k < |ps| :: ps[k].alive && ps[k].id == r.value && forall j | 0 <= j < k :: !ps[j].alive
    ensures r.None? <==> Alives(ps) == []
    ensures r.Some? ==> r.value == Alives(ps)[0].id
  {
    if ps == [] then None
    else if ps[0].alive then Some(ps[0].id)
    else
      var r := FirstAliveId(ps[1..]);
      FirstAliveShift(ps, r);
      r
  }

  lemma FirstAliveShift(ps: Players, r: Option<string>)
    requires ps != [] && !ps[0].alive
    requires r.Some? ==> exists k | 0 <= k < |ps[1..]| :: ps[1..][k].alive && ps[1..][k].id == r.value && forall j | 0 <= j < k :: !ps[1..][j].alive
    ensures r.Some? ==> exists k | 0 <= k < |ps| :: ps[k].alive && ps[k].id == r.value && forall j | 0 <= j < k :: !ps[j].alive
  {
    if r.Some? {
      var k :| 0 <= k < |ps[1..]| && ps[1..][k].alive && ps[1..][k].id == r.value && forall j | 0 <= j < k :: !ps[1..][j].alive;
      assert ps[k + 1].alive && ps[k + 1].id == r.value && forall j | 0 <= j < k + 1 :: !ps[j].alive;
    }
  }
}
