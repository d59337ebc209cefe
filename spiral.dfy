/** The sudden-death order: `getSuddenDeathCoords(index)` walks the grid in
    an inward clockwise spiral, ring by ring, and returns the cell with the
    given position in that walk, or nothing once the walk is over
    (server/game/GameRoom.js). */
module Spiral {
  import opened Opt
  import opened Grid

  datatype Coord = Coord(x: int, y: int)

  /** The walk from the ring with bounds `top`, `left`, `bottom`, `right`
      onwards, `count` cells having been counted before it. Each ring is the
      top row left to right, the right column downwards, the bottom row right
      to left, the left column upwards, with the bounds moved in after each
      side, exactly as the source's four `for` loops do. */
  function RingFrom(top: int, left: int, bottom: int, right: int, count: int, index: int): Option<Coord>
    decreases right - left + 1
  {
    if !(top <= bottom && left <= right) then None
    else
      var n1 := right - left + 1;
      if count <= index < count + n1 then Some(Coord(left + (index - count), top))
      else
        var top1 := top + 1;
        var n2 := if top1 <= bottom then bottom - top1 + 1 else 0;
        if count + n1 <= index < count + n1 + n2 then Some(Coord(right, top1 + (index - count - n1)))
        else
          var right1 := right - 1;
          var n3 := if left <= right1 then right1 - left + 1 else 0;
          if count + n1 + n2 <= index < count + n1 + n2 + n3 then
            Some(Coord(right1 - (index - count - n1 - n2), bottom))
          else
            var bottom1 := bottom - 1;
            var n4 := if top1 <= bottom1 then bottom1 - top1 + 1 else 0;
            if count + n1 + n2 + n3 <= index < count + n1 + n2 + n3 + n4 then
              Some(Coord(left, bottom1 - (index - count - n1 - n2 - n3)))
            else
              RingFrom(top1, left + 1, bottom1, right1, count + n1 + n2 + n3 + n4, index)
  }

  /** The cell the spiral visits at position `index` over the whole grid. */
  function SpiralAt(index: int): Option<Coord> {
    RingFrom(0, 0, Height - 1, Width - 1, 0, index)
  }

  /** One ascending side of a ring, `for (i = lo; i <= hi; i++)`: the loop
      variable at which the counter meets `index`, if it does, and the
      counter after the side otherwise. */
  method ScanUp(lo: int, hi: int, count: int, index: int) returns (at: Option<int>, count': int)
    ensures count <= index <= count + (hi - lo) ==> at == Some(lo + (index - count))
    ensures !(count <= index <= count + (hi - lo)) ==>
      at == None && count' == count + (if lo <= hi then hi - lo + 1 else 0)
  {
    count' := count;
    var i := lo;
    while i <= hi
      invariant (if lo <= hi then lo <= i <= hi + 1 else i == lo) && count' == count + (i - lo)
      invariant !(count <= index < count')
    {
      if count' == index {
        return Some(i), count';
      }
      count' := count' + 1;
      i := i + 1;
    }
    return None, count';
  }

  /** One descending side of a ring, `for (i = hi; i >= lo; i--)`. */
  method ScanDown(hi: int, lo: int, count: int, index: int) returns (at: Option<int>, count': int)
    ensures count <= index <= count + (hi - lo) ==> at == Some(hi - (index - count))
    ensures !(count <= index <= count + (hi - lo)) ==>
      at == None && count' == count + (if lo <= hi then hi - lo + 1 else 0)
  {
    count' := count;
    var i := hi;
    while i >= lo
      invariant (if lo <= hi then lo - 1 <= i <= hi else i == hi) && count' == count + (hi - i)
      invariant !(count <= index < count')
    {
      if count' == index {
        return Some(i), count';
      }
      count' := count' + 1;
      i := i - 1;
    }
    return None, count';
  }

  /** `getSuddenDeathCoords`: the counter-driven loops of the source. */
  method GetSuddenDeathCoords(index: int) returns (c: Option<Coord>)
    ensures c == SpiralAt(index)
  {
    var count := 0;
    var top, left, bottom, right := 0, 0, Height - 1, Width - 1;
    while top <= bottom && left <= right
      invariant RingFrom(top, left, bottom, right, count, index) == SpiralAt(index)
      decreases right - left + 1
    {
      var at: Option<int>;
      at, count := ScanUp(left, right, count, index);
      if at.Some? {
        return Some(Coord(at.value, top));
      }
      top := top + 1;
      at, count := ScanUp(top, bottom, count, index);
      if at.Some? {
        return Some(Coord(right, at.value));
      }
      right := right - 1;
      at, count := ScanDown(right, left, count, index);
      if at.Some? {
        return Some(Coord(at.value, bottom));
      }
      bottom := bottom - 1;
      at, count := ScanDown(bottom, top, count, index);
      if at.Some? {
        return Some(Coord(left, at.value));
      }
      left := left + 1;
    }
    return None;
  }

  /** Ring k of the 15 by 13 grid has bounds top = left = k, bottom = 12 - k,
      right = 14 - k. Rings 0 to 5 are full rectangles of 52 - 8k cells; ring 6
      is the single centre row y = 6, x = 6..8. */
  function RingLength(k: int): int {
    2 * (Width - 1 - 2 * k) + 2 * (Height - 1 - 2 * k)
  }

  /** How many positions the walk spends on the rings before ring k. */
  function RingStart(k: int): int
    requires 0 <= k <= 6
  {
    if k == 0 then 0 else RingStart(k - 1) + RingLength(k - 1)
  }

  lemma RingStarts()
    ensures RingStart(0) == 0 && RingStart(1) == 52 && RingStart(2) == 96 && RingStart(3) == 132
    ensures RingStart(4) == 160 && RingStart(5) == 180 && RingStart(6) == 192
  {
  }

  /** The d-th cell of full ring k, in walking order. */
  function RingCoord(k: int, d: int): Coord {
    var n1 := Width - 2 * k;
    var n2 := Height - 1 - 2 * k;
    var n3 := Width - 1 - 2 * k;
    if d < n1 then Coord(k + d, k)
    else if d < n1 + n2 then Coord(Width - 1 - k, k + 1 + (d - n1))
    else if d < n1 + n2 + n3 then Coord(Width - 2 - k - (d - n1 - n2), Height - 1 - k)
    else Coord(k, Height - 2 - k - (d - n1 - n2 - n3))
  }

  /** One full ring: inside its span the walk gives the ring's cells, outside
      it the walk carries on with the next ring. */
  lemma FullRing(k: int, s: int, i: int)
    requires 0 <= k <= 5
    ensures s <= i < s + RingLength(k) ==>
      RingFrom(k, k, Height - 1 - k, Width - 1 - k, s, i) == Some(RingCoord(k, i - s))
    ensures !(s <= i < s + RingLength(k)) ==>
      RingFrom(k, k, Height - 1 - k, Width - 1 - k, s, i)
        == RingFrom(k + 1, k + 1, Height - 2 - k, Width - 2 - k, s + RingLength(k), i)
  {
  }

  /** The centre ring: its row is walked left to right and then, because the
      bottom-row loop runs over the same row, back again over two cells. */
  lemma CentreRing(i: int)
    ensures RingFrom(6, 6, 6, 8, 192, i) ==
      if 192 <= i < 195 then Some(Coord(6 + (i - 192), 6))
      else if i == 195 then Some(Coord(7, 6))
      else if i == 196 then Some(Coord(6, 6))
      else None
  {
  }

  /** The walk reaches ring k with RingStart(k) cells counted. */
  lemma {:induction false} Reach(k: int, i: int)
    requires 0 <= k <= 6
    requires !(0 <= i < RingStart(k))
    ensures SpiralAt(i) == RingFrom(k, k, Height - 1 - k, Width - 1 - k, RingStart(k), i)
  {
    if k > 0 {
      Reach(k - 1, i);
      FullRing(k - 1, RingStart(k - 1), i);
    }
  }

  function Min(a: int, b: int): int {
    if a <= b then a else b
  }

  /** The ring a cell lies on: its distance to the nearest border. */
  function RingOf(c: Coord): int {
    Min(Min(c.x, c.y), Min(Width - 1 - c.x, Height - 1 - c.y))
  }

  /** The inverse of the walk: the position at which a grid cell is visited,
      computed from its ring and its side, independently of the loops. */
  function SpiralIndex(c: Coord): int
    requires InGrid(c.x, c.y)
  {
    var k := RingOf(c);
    var top, left, bottom, right := k, k, Height - 1 - k, Width - 1 - k;
    RingStart(k) +
      if c.y == top then c.x - left
      else if c.x == right then (right - left + 1) + (c.y - top - 1)
      else if c.y == bottom then (right - left + 1) + (bottom - top) + (right - 1 - c.x)
      else (right - left + 1) + (bottom - top) + (right - left) + (bottom - 1 - c.y)
  }

  lemma RingCoordIndex(k: int, d: int)
    requires 0 <= k <= 5 && 0 <= d < RingLength(k)
    ensures InGrid(RingCoord(k, d).x, RingCoord(k, d).y)
    ensures RingOf(RingCoord(k, d)) == k
    ensures SpiralIndex(RingCoord(k, d)) == RingStart(k) + d
  {
  }

  /** Every position from 0 to 194 is a grid cell, and the walk visits no
      cell twice among them: SpiralIndex undoes SpiralAt. */
  lemma SpiralVisitsOnce(i: int)
    requires 0 <= i < Width * Height
    ensures SpiralAt(i).Some?
    ensures InGrid(SpiralAt(i).value.x, SpiralAt(i).value.y)
    ensures SpiralIndex(SpiralAt(i).value) == i
  {
    RingStarts();
    var k := if i < 52 then 0 else if i < 96 then 1 else if i < 132 then 2
      else if i < 160 then 3 else if i < 180 then 4 else if i < 192 then 5 else 6;
    Reach(k, i);
    if k < 6 {
      FullRing(k, RingStart(k), i);
      RingCoordIndex(k, i - RingStart(k));
    } else {
      CentreRing(i);
    }
  }

  /** Every cell of the grid is visited, at position SpiralIndex of it. */
  lemma SpiralCovers(c: Coord)
    requires InGrid(c.x, c.y)
    ensures 0 <= SpiralIndex(c) < Width * Height
    ensures SpiralAt(SpiralIndex(c)) == Some(c)
  {
    RingStarts();
    var k := RingOf(c);
    var i := SpiralIndex(c);
    Reach(k, i);
    if k < 6 {
      var d := i - RingStart(k);
      assert RingCoord(k, d) == c;
      FullRing(k, RingStart(k), i);
    } else {
      CentreRing(i);
    }
  }

  /** Two different positions below 195 name two different cells. */
  lemma SpiralInjective(i: int, j: int)
    requires 0 <= i < Width * Height && 0 <= j < Width * Height && i != j
    ensures SpiralAt(i) != SpiralAt(j)
  {
    SpiralVisitsOnce(i);
    SpiralVisitsOnce(j);
  }

  /** As written, positions 195 and 196 revisit the centre cells (7,6) and
      (6,6), which positions 193 and 192 already turned into walls; from 197
      on, and for negative positions, there is nothing. */
  lemma SpiralRevisitsCentre(i: int)
    ensures SpiralAt(195) == SpiralAt(193) == Some(Coord(7, 6))
    ensures SpiralAt(196) == SpiralAt(192) == Some(Coord(6, 6))
    ensures (i < 0 || i >= 197) ==> SpiralAt(i) == None
  {
    RingStarts();
    Reach(6, 192); CentreRing(192);
    Reach(6, 193); CentreRing(193);
    Reach(6, 195); CentreRing(195);
    Reach(6, 196); CentreRing(196);
    if i < 0 || i >= 197 {
      Reach(6, i);
      CentreRing(i);
    }
  }

  /** Whatever the walk returns is a grid cell. */
  lemma SpiralInGrid(i: int)
    requires SpiralAt(i).Some?
    ensures InGrid(SpiralAt(i).value.x, SpiralAt(i).value.y)
  {
    if 0 <= i < Width * Height {
      SpiralVisitsOnce(i);
    } else {
      SpiralRevisitsCentre(i);
    }
  }

  /** The walk starts in the top-left corner and runs along the top row. */
  lemma SpiralTopRow(i: int)
    requires 0 <= i < Width
    ensures SpiralAt(i) == Some(Coord(i, 0))
  {
  }
}
