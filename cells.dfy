/** The cell store: the CellData (x, y, z) and CellState (Alive) components of
    every cell entity, as one sequence per field indexed by entity. The z field is
    the render-facing liveness, 0 or 1; between updates it mirrors Alive, and the
    step pass reads it as the previous generation. Also the pure parts of the
    per-update passes that touch only the cell store: the liveness refresh and the
    pointer edit. */
module Cells {
  import opened Grid

  datatype Arena = Arena(cx: seq<int>, cy: seq<int>, z: seq<int>, alive: seq<bool>)

  /** One entry per entity in every component sequence. */
  predicate WellFormed(a: Arena)
  {
    |a.cx| == |a.cy| == |a.z| == |a.alive|
  }

  function Liveness(alive: bool): int
  {
    if alive then 1 else 0
  }

  /** Only 0 and 1 are ever stored in z. */
  predicate Binary(z: seq<int>)
  {
    forall i :: 0 <= i < |z| ==> z[i] == 0 || z[i] == 1
  }

  /** Every cell's liveness agrees with its Alive flag. */
  predicate Mirrored(a: Arena)
    requires WellFormed(a)
  {
    forall i :: 0 <= i < |a.alive| ==> a.z[i] == Liveness(a.alive[i])
  }

  lemma MirroredIsBinary(a: Arena)
    requires WellFormed(a) && Mirrored(a)
    ensures Binary(a.z)
  {
  }

  // ---------------------------------------------------------------------------
  // Refresh pass: z := Alive ? 1 : 0 for every cell.

  function Refresh(a: Arena): (r: Arena)
    requires WellFormed(a)
    ensures WellFormed(r) && |r.alive| == |a.alive|
  {
    Arena(a.cx, a.cy, seq(|a.alive|, i requires 0 <= i < |a.alive| => Liveness(a.alive[i])), a.alive)
  }

  /** After the refresh every cell's liveness mirrors its Alive flag, and no
      Alive flag or coordinate has changed. */
  lemma RefreshMirrors(a: Arena)
    requires WellFormed(a)
    ensures Mirrored(Refresh(a)) && Binary(Refresh(a).z)
    ensures Refresh(a).alive == a.alive && Refresh(a).cx == a.cx && Refresh(a).cy == a.cy
  {
  }

  /** On a store whose liveness already mirrors Alive, the refresh changes
      nothing. */
  lemma RefreshKeepsMirrored(a: Arena)
    requires WellFormed(a) && Mirrored(a)
    ensures Refresh(a) == a
  {
    assert Refresh(a).z == a.z;
  }

  /** The refresh pass is a no-op exactly on the stores whose liveness already
      mirrors Alive. */
  lemma RefreshIsNoopIff(a: Arena)
    requires WellFormed(a)
    ensures Refresh(a) == a <==> Mirrored(a)
  {
    if Mirrored(a) {
      RefreshKeepsMirrored(a);
    } else {
      RefreshMirrors(a);
    }
  }

  // ---------------------------------------------------------------------------
  // Pointer edit.

  /** The pressed position, already scaled to grid units. */
  datatype Point = Point(x: real, y: real)

  /** The position used when the ray misses the zero plane: Vector3.zero. */
  function Pressed(hit: Option<Point>): (p: Point)
    ensures hit.Some? ==> p == hit.value
    ensures hit.None? ==> p == Point(0.0, 0.0)
  {
    match hit
    case Some(p) => p
    case None => Point(0.0, 0.0)
  }

  /** The cell at stored coordinates (cx, cy) strictly contains the point. */
  predicate Contains(cx: int, cy: int, p: Point): (r: bool)
    ensures r ==> cx == p.x.Floor && cy == p.y.Floor
  {
    cx as real < p.x && (cx + 1) as real > p.x && cy as real < p.y && (cy + 1) as real > p.y
  }

  /** A cell contains a point exactly when its coordinates are the floors of the
      point's coordinates and neither coordinate of the point is an integer. */
  lemma ContainsIff(cx: int, cy: int, p: Point)
    ensures Contains(cx, cy, p) <==>
      cx == p.x.Floor && cy == p.y.Floor && p.x != p.x.Floor as real && p.y != p.y.Floor as real
  {
    if Contains(cx, cy, p) {
      FloorBetween(cx, p.x);
      FloorBetween(cy, p.y);
    }
  }

  lemma FloorBetween(k: int, r: real)
    requires k as real < r < (k + 1) as real
    ensures r.Floor == k && r != k as real
  {
  }

  /** The edit of one cell: inside the pressed point, the left button forces it
      alive with liveness 1, else the right button forces it dead with liveness 0. */
  function EditCell(alive: bool, z: int, inside: bool, left: bool, right: bool): (r: (bool, int))
    ensures !inside || !(left || right) ==> r == (alive, z)
    ensures z == Liveness(alive) ==> r.1 == Liveness(r.0)
    ensures z == 0 || z == 1 ==> r.1 == 0 || r.1 == 1
  {
    if inside then
      if left then (true, 1)
      else if right then (false, 0)
      else (alive, z)
    else (alive, z)
  }

  /** The pointer pass over the whole store. */
  function Edit(a: Arena, left: bool, right: bool, p: Point): (r: Arena)
    requires WellFormed(a)
    ensures WellFormed(r) && |r.alive| == |a.alive|
    ensures r.cx == a.cx && r.cy == a.cy
  {
    var n := |a.alive|;
    Arena(a.cx, a.cy,
      seq(n, i requires 0 <= i < n => EditCell(a.alive[i], a.z[i], Contains(a.cx[i], a.cy[i], p), left, right).1),
      seq(n, i requires 0 <= i < n => EditCell(a.alive[i], a.z[i], Contains(a.cx[i], a.cy[i], p), left, right).0))
  }

  /** Only cells that strictly contain the point change; each of them ends up
      alive with liveness 1 when the left button is down, and otherwise dead with
      liveness 0 when the right button is down. */
  lemma EditEffect(a: Arena, left: bool, right: bool, p: Point, i: int)
    requires WellFormed(a) && 0 <= i < |a.alive|
    ensures !Contains(a.cx[i], a.cy[i], p) ==>
      Edit(a, left, right, p).alive[i] == a.alive[i] && Edit(a, left, right, p).z[i] == a.z[i]
    ensures Contains(a.cx[i], a.cy[i], p) && left ==>
      Edit(a, left, right, p).alive[i] && Edit(a, left, right, p).z[i] == 1
    ensures Contains(a.cx[i], a.cy[i], p) && !left && right ==>
      !Edit(a, left, right, p).alive[i] && Edit(a, left, right, p).z[i] == 0
  {
  }

  /** A point on an integer grid line, such as the default (0, 0) of a missed
      ray, lies in no cell, so the edit changes nothing. */
  lemma EditOnGridLineIsNoop(a: Arena, left: bool, right: bool, p: Point)
    requires WellFormed(a)
    requires p.x == p.x.Floor as real || p.y == p.y.Floor as real
    ensures Edit(a, left, right, p) == a
  {
    forall i | 0 <= i < |a.alive|
      ensures !Contains(a.cx[i], a.cy[i], p)
    {
      ContainsIff(a.cx[i], a.cy[i], p);
    }
    assert Edit(a, left, right, p).z == a.z;
    assert Edit(a, left, right, p).alive == a.alive;
  }

  /** Every cell stores a position of a sizeX-by-sizeY grid. */
  predicate InGrid(a: Arena, sizeX: int, sizeY: int)
    requires WellFormed(a)
  {
    forall i :: 0 <= i < |a.alive| ==> 0 <= a.cx[i] < sizeX && 0 <= a.cy[i] < sizeY
  }

  /** The point lies outside the open rectangle (0, sizeX) by (0, sizeY). */
  predicate OutsideGrid(p: Point, sizeX: int, sizeY: int)
  {
    p.x <= 0.0 || p.x >= sizeX as real || p.y <= 0.0 || p.y >= sizeY as real
  }

  /** When every cell stores a position of the grid, a press outside the grid's
      open rectangle lies in no cell, so the edit changes nothing. */
  lemma EditOutsideGridIsNoop(a: Arena, left: bool, right: bool, p: Point, sizeX: int, sizeY: int)
    requires WellFormed(a) && InGrid(a, sizeX, sizeY)
    requires OutsideGrid(p, sizeX, sizeY)
    ensures Edit(a, left, right, p) == a
  {
    forall i | 0 <= i < |a.alive|
      ensures !Contains(a.cx[i], a.cy[i], p)
    {
    }
    assert Edit(a, left, right, p).z == a.z;
    assert Edit(a, left, right, p).alive == a.alive;
  }

  /** Holding the button over the same point re-asserts the same values. */
  lemma EditIdempotent(a: Arena, left: bool, right: bool, p: Point)
    requires WellFormed(a)
    ensures Edit(Edit(a, left, right, p), left, right, p) == Edit(a, left, right, p)
  {
    var e := Edit(a, left, right, p);
    assert Edit(e, left, right, p).z == e.z;
    assert Edit(e, left, right, p).alive == e.alive;
  }

  /** The edit keeps every cell's liveness equal to its Alive flag. */
  lemma EditKeepsMirrored(a: Arena, left: bool, right: bool, p: Point)
    requires WellFormed(a) && Mirrored(a)
    ensures Mirrored(Edit(a, left, right, p))
  {
  }

  /** The edit keeps z within {0, 1}. */
  lemma EditKeepsBinary(a: Arena, left: bool, right: bool, p: Point)
    requires WellFormed(a) && Binary(a.z)
    ensures Binary(Edit(a, left, right, p).z)
  {
  }
}
