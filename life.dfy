/** The step pass: every cell counts the liveness z of the eight cells around its
    stored coordinates through the GridData indexer, then applies the birth and
    survival rule to its own Alive flag. The pass reads only z and writes only
    Alive, so z is the previous generation while the pass runs. */
module Life {
  import opened Grid
  import opened Cells

  /** The rule as the step pass branches on it. */
  function NextAlive(alive: bool, liveNeighbours: int): (r: bool)
    ensures r <==> liveNeighbours == 3 || (alive && liveNeighbours == 2)
  {
    if alive then
      if liveNeighbours < 2 then false
      else if liveNeighbours > 3 then false
      else true
    else
      if liveNeighbours == 3 then true
      else false
  }

  /** Applying the rule twice with the same count gives what applying it once
      does: a cell born with three neighbours survives with three. */
  lemma NextAliveIdempotent(alive: bool, liveNeighbours: int)
    ensures NextAlive(NextAlive(alive, liveNeighbours), liveNeighbours) == NextAlive(alive, liveNeighbours)
  {
  }

  /** What one probe adds to the count: the z of the entity found, or nothing
      for Entity.Null. */
  function ProbeZ(sizeX: int, refs: seq<int>, z: seq<int>, x: int, y: int): int
    requires RefsWithin(refs, |z|)
  {
    match Lookup(sizeX, refs, x, y)
    case None => 0
    case Some(e) => z[e]
  }

  /** A probe that finds Entity.Null adds nothing, and over a z holding only 0
      and 1 every probe adds 0 or 1. */
  lemma ProbeZRange(sizeX: int, refs: seq<int>, z: seq<int>, x: int, y: int)
    requires RefsWithin(refs, |z|)
    ensures Lookup(sizeX, refs, x, y).None? ==> ProbeZ(sizeX, refs, z, x, y) == 0
    ensures Binary(z) ==> ProbeZ(sizeX, refs, z, x, y) == 0 || ProbeZ(sizeX, refs, z, x, y) == 1
  {
  }

  /** The neighbour count of a cell stored at (x, y): the eight probes around
      it, the cell's own position left out. When z holds only 0 and 1 the count
      lies between 0 and 8. */
  function LiveNeighbours(sizeX: int, refs: seq<int>, z: seq<int>, x: int, y: int): (r: int)
    requires RefsWithin(refs, |z|)
    ensures Binary(z) ==> 0 <= r <= 8
  {
    ProbeZ(sizeX, refs, z, x - 1, y - 1) + ProbeZ(sizeX, refs, z, x - 1, y) + ProbeZ(sizeX, refs, z, x - 1, y + 1)
    + ProbeZ(sizeX, refs, z, x, y - 1) + ProbeZ(sizeX, refs, z, x, y + 1)
    + ProbeZ(sizeX, refs, z, x + 1, y - 1) + ProbeZ(sizeX, refs, z, x + 1, y) + ProbeZ(sizeX, refs, z, x + 1, y + 1)
  }

  /** The next Alive flag of every cell, each computed from the unchanged z. */
  function StepCells(sizeX: int, refs: seq<int>, a: Arena): (r: seq<bool>)
    requires WellFormed(a) && RefsWithin(refs, |a.z|)
    ensures |r| == |a.alive|
  {
    seq(|a.alive|, i requires 0 <= i < |a.alive| =>
      NextAlive(a.alive[i], LiveNeighbours(sizeX, refs, a.z, a.cx[i], a.cy[i])))
  }

  /** The whole store after the step pass: only Alive changes. */
  function Step(sizeX: int, refs: seq<int>, a: Arena): (r: Arena)
    requires WellFormed(a) && RefsWithin(refs, |a.z|)
    ensures WellFormed(r) && |r.alive| == |a.alive|
    ensures r.cx == a.cx && r.cy == a.cy && r.z == a.z
  {
    Arena(a.cx, a.cy, a.z, StepCells(sizeX, refs, a))
  }

  // ---------------------------------------------------------------------------
  // The step pass does not depend on the order in which cells are visited.

  /** Visiting the cells one after another in the given order, each visit
      rewriting the visited cell's Alive flag from its count over z. */
  function StepInOrder(sizeX: int, refs: seq<int>, a: Arena, order: seq<int>): (r: Arena)
    requires WellFormed(a) && RefsWithin(refs, |a.z|)
    requires forall k :: 0 <= k < |order| ==> 0 <= order[k] < |a.alive|
    ensures WellFormed(r) && |r.alive| == |a.alive| && r.z == a.z && r.cx == a.cx && r.cy == a.cy
    decreases |order|
  {
    if order == [] then a
    else
      var i := order[0];
      var n := LiveNeighbours(sizeX, refs, a.z, a.cx[i], a.cy[i]);
      StepInOrder(sizeX, refs, a.(alive := a.alive[i := NextAlive(a.alive[i], n)]), order[1..])
  }

  /** After a sequential visit, a visited cell holds its next Alive flag and an
      unvisited cell is unchanged, however often and in whatever order the
      cells were visited. */
  lemma {:induction false} StepInOrderAt(sizeX: int, refs: seq<int>, a: Arena, order: seq<int>, i: int)
    requires WellFormed(a) && RefsWithin(refs, |a.z|)
    requires forall k :: 0 <= k < |order| ==> 0 <= order[k] < |a.alive|
    requires 0 <= i < |a.alive|
    ensures StepInOrder(sizeX, refs, a, order).alive[i] ==
      if i in order then NextAlive(a.alive[i], LiveNeighbours(sizeX, refs, a.z, a.cx[i], a.cy[i])) else a.alive[i]
    decreases |order|
  {
    if order != [] {
      var j := order[0];
      var n := LiveNeighbours(sizeX, refs, a.z, a.cx[j], a.cy[j]);
      var a' := a.(alive := a.alive[j := NextAlive(a.alive[j], n)]);
      StepInOrderAt(sizeX, refs, a', order[1..], i);
      assert i in order <==> i == j || i in order[1..];
      if i == j {
        NextAliveIdempotent(a.alive[i], n);
      }
    }
  }

  /** Any sequential visit that reaches every cell at least once leaves the
      store the step pass specifies; this is why the parallel pass is race-free. */
  lemma StepOrderIndependent(sizeX: int, refs: seq<int>, a: Arena, order: seq<int>)
    requires WellFormed(a) && RefsWithin(refs, |a.z|)
    requires forall k :: 0 <= k < |order| ==> 0 <= order[k] < |a.alive|
    requires forall i :: 0 <= i < |a.alive| ==> i in order
    ensures StepInOrder(sizeX, refs, a, order) == Step(sizeX, refs, a)
  {
    var r := StepInOrder(sizeX, refs, a, order);
    forall i | 0 <= i < |a.alive|
      ensures r.alive[i] == Step(sizeX, refs, a).alive[i]
    {
      StepInOrderAt(sizeX, refs, a, order, i);
    }
  }

  // ---------------------------------------------------------------------------
  // The count never sees the cell's own liveness in grids at least 2 wide.

  /** In an n-by-n grid with n >= 2 and the blob holding entity i in slot i, the
      count of the cell at (x, y) does not depend on that cell's own z. */
  lemma CountIgnoresOwnCell(n: int, refs: seq<int>, z: seq<int>, x: int, y: int, v: int)
    requires n >= 2 && |refs| == n * n && |z| == |refs| && IsIdentity(refs)
    requires 0 <= x < n && 0 <= y < n
    ensures 0 <= Slot(n, x, y) < |z|
    ensures LiveNeighbours(n, refs, z[Slot(n, x, y) := v], x, y) == LiveNeighbours(n, refs, z, x, y)
  {
    SlotInRange(n, x, y);
    var s := Slot(n, x, y);
    var z' := z[s := v];
    assert RefsWithin(refs, |z|);
    ProbeMissesOwnSlot(n, refs, z, v, x, y, -1, -1);
    ProbeMissesOwnSlot(n, refs, z, v, x, y, -1, 0);
    ProbeMissesOwnSlot(n, refs, z, v, x, y, -1, 1);
    ProbeMissesOwnSlot(n, refs, z, v, x, y, 0, -1);
    ProbeMissesOwnSlot(n, refs, z, v, x, y, 0, 1);
    ProbeMissesOwnSlot(n, refs, z, v, x, y, 1, -1);
    ProbeMissesOwnSlot(n, refs, z, v, x, y, 1, 0);
    ProbeMissesOwnSlot(n, refs, z, v, x, y, 1, 1);
  }

  lemma ProbeMissesOwnSlot(n: int, refs: seq<int>, z: seq<int>, v: int, x: int, y: int, dx: int, dy: int)
    requires n >= 2 && |z| == |refs| && IsIdentity(refs) && RefsWithin(refs, |z|)
    requires 0 <= y < n && 0 <= Slot(n, x, y) < |z|
    requires -1 <= dx <= 1 && -1 <= dy <= 1 && (dx != 0 || dy != 0)
    ensures ProbeZ(n, refs, z[Slot(n, x, y) := v], x + dx, y + dy) == ProbeZ(n, refs, z, x + dx, y + dy)
  {
    var s := Slot(n, x, y);
    if dx == 1 {
      assert Slot(n, x + dx, y + dy) == s + n + dy;
    } else if dx == -1 {
      assert Slot(n, x + dx, y + dy) == s - n + dy;
    } else {
      assert Slot(n, x + dx, y + dy) == s + dy;
    }
  }

  /** The z found in flat slot t of the blob, or 0 outside it. */
  function SlotZ(refs: seq<int>, z: seq<int>, t: int): int
    requires RefsWithin(refs, |z|)
  {
    if 0 <= t < |refs| then z[refs[t]] else 0
  }

  /** Because the indexer checks only the flat slot, the count of a cell is the
      sum of z over the eight flat slots at offsets -n-1, -n, -n+1, -1, +1,
      n-1, n and n+1 from its own slot, whatever its coordinates. */
  lemma CountBySlots(n: int, refs: seq<int>, z: seq<int>, x: int, y: int)
    requires RefsWithin(refs, |z|)
    ensures var s := Slot(n, x, y);
      LiveNeighbours(n, refs, z, x, y) ==
        SlotZ(refs, z, s - n - 1) + SlotZ(refs, z, s - n) + SlotZ(refs, z, s - n + 1)
        + SlotZ(refs, z, s - 1) + SlotZ(refs, z, s + 1)
        + SlotZ(refs, z, s + n - 1) + SlotZ(refs, z, s + n) + SlotZ(refs, z, s + n + 1)
  {
    var s := Slot(n, x, y);
    assert Slot(n, x - 1, y) == s - n;
    assert Slot(n, x + 1, y) == s + n;
  }

  /** In a 1-by-1 grid the probes (x - 1, y + 1) and (x + 1, y - 1) both land on
      the cell itself, so a lone live cell counts two neighbours and survives. */
  lemma LoneCellInOneByOneSurvives(refs: seq<int>, z: seq<int>)
    requires refs == [0] && z == [1]
    ensures RefsWithin(refs, |z|)
    ensures LiveNeighbours(1, refs, z, 0, 0) == 2
    ensures NextAlive(true, LiveNeighbours(1, refs, z, 0, 0))
  {
    CountBySlots(1, refs, z, 0, 0);
  }

  // ---------------------------------------------------------------------------
  // Scenarios on a 3-by-3 grid built as CreateGrid builds it: entity s stores
  // the coordinates (s / 3, s % 3) and the blob holds entity s in slot s.

  /** The blob and the coordinates of a 3-by-3 grid as CreateGrid lays it out. */
  predicate ThreeByThree(refs: seq<int>, a: Arena)
  {
    && refs == [0, 1, 2, 3, 4, 5, 6, 7, 8]
    && a.cx == [0, 0, 0, 1, 1, 1, 2, 2, 2] && a.cy == [0, 1, 2, 0, 1, 2, 0, 1, 2]
  }

  /** The count of a cell of a 3-by-3 grid, as a sum over the flat slots
      around its slot 3x + y. */
  lemma CountInThreeByThree(refs: seq<int>, z: seq<int>, x: int, y: int)
    requires refs == [0, 1, 2, 3, 4, 5, 6, 7, 8] && |z| == 9
    ensures RefsWithin(refs, |z|)
    ensures var s := 3 * x + y;
      LiveNeighbours(3, refs, z, x, y) ==
        SlotZ(refs, z, s - 4) + SlotZ(refs, z, s - 3) + SlotZ(refs, z, s - 2)
        + SlotZ(refs, z, s - 1) + SlotZ(refs, z, s + 1)
        + SlotZ(refs, z, s + 2) + SlotZ(refs, z, s + 3) + SlotZ(refs, z, s + 4)
  {
    CountBySlots(3, refs, z, x, y);
  }

  /** The count table of a 3-by-3 grid: each cell counts the z of the flat
      slots up to four away from its own. So (0, 0) counts (0, 2) through its
      probe (1, -1), and (0, 2) counts (1, 0) through its probe (0, 3). */
  lemma CountsInThreeByThree(refs: seq<int>, z: seq<int>)
    requires refs == [0, 1, 2, 3, 4, 5, 6, 7, 8] && |z| == 9
    ensures RefsWithin(refs, |z|)
    ensures LiveNeighbours(3, refs, z, 0, 0) == z[1] + z[2] + z[3] + z[4]
    ensures LiveNeighbours(3, refs, z, 0, 1) == z[0] + z[2] + z[3] + z[4] + z[5]
    ensures LiveNeighbours(3, refs, z, 0, 2) == z[0] + z[1] + z[3] + z[4] + z[5] + z[6]
    ensures LiveNeighbours(3, refs, z, 1, 0) == z[0] + z[1] + z[2] + z[4] + z[5] + z[6] + z[7]
    ensures LiveNeighbours(3, refs, z, 1, 1) == z[0] + z[1] + z[2] + z[3] + z[5] + z[6] + z[7] + z[8]
    ensures LiveNeighbours(3, refs, z, 1, 2) == z[1] + z[2] + z[3] + z[4] + z[6] + z[7] + z[8]
    ensures LiveNeighbours(3, refs, z, 2, 0) == z[2] + z[3] + z[4] + z[5] + z[7] + z[8]
    ensures LiveNeighbours(3, refs, z, 2, 1) == z[3] + z[4] + z[5] + z[6] + z[8]
    ensures LiveNeighbours(3, refs, z, 2, 2) == z[4] + z[5] + z[6] + z[7]
  {
    CountInThreeByThree(refs, z, 0, 0);
    CountInThreeByThree(refs, z, 0, 1);
    CountInThreeByThree(refs, z, 0, 2);
    CountInThreeByThree(refs, z, 1, 0);
    CountInThreeByThree(refs, z, 1, 1);
    CountInThreeByThree(refs, z, 1, 2);
    CountInThreeByThree(refs, z, 2, 0);
    CountInThreeByThree(refs, z, 2, 1);
    CountInThreeByThree(refs, z, 2, 2);
  }

  /** A lone live cell in the middle has no live neighbour and dies, and
      every other cell counts one live neighbour and stays dead, so the whole
      grid is dead after one step. */
  lemma LoneCentreDies(refs: seq<int>, a: Arena)
    requires ThreeByThree(refs, a)
    requires a.z == [0, 0, 0, 0, 1, 0, 0, 0, 0]
    requires a.alive == [false, false, false, false, true, false, false, false, false]
    ensures RefsWithin(refs, |a.z|)
    ensures LiveNeighbours(3, refs, a.z, 1, 1) == 0
    ensures !NextAlive(a.alive[0], LiveNeighbours(3, refs, a.z, 0, 0))
    ensures !NextAlive(a.alive[1], LiveNeighbours(3, refs, a.z, 0, 1))
    ensures !NextAlive(a.alive[2], LiveNeighbours(3, refs, a.z, 0, 2))
    ensures !NextAlive(a.alive[3], LiveNeighbours(3, refs, a.z, 1, 0))
    ensures !NextAlive(a.alive[4], LiveNeighbours(3, refs, a.z, 1, 1))
    ensures !NextAlive(a.alive[5], LiveNeighbours(3, refs, a.z, 1, 2))
    ensures !NextAlive(a.alive[6], LiveNeighbours(3, refs, a.z, 2, 0))
    ensures !NextAlive(a.alive[7], LiveNeighbours(3, refs, a.z, 2, 1))
    ensures !NextAlive(a.alive[8], LiveNeighbours(3, refs, a.z, 2, 2))
  {
    LoneCentreCounts(refs, a.z);
  }

  /** The counts around a lone live centre: none at the centre, one at every
      other cell. */
  lemma LoneCentreCounts(refs: seq<int>, z: seq<int>)
    requires refs == [0, 1, 2, 3, 4, 5, 6, 7, 8]
    requires |z| == 9 && z[4] == 1
    requires z[0] == z[1] == z[2] == z[3] == z[5] == z[6] == z[7] == z[8] == 0
    ensures RefsWithin(refs, |z|)
    ensures LiveNeighbours(3, refs, z, 1, 1) == 0
    ensures LiveNeighbours(3, refs, z, 0, 0) == 1
    ensures LiveNeighbours(3, refs, z, 0, 1) == 1
    ensures LiveNeighbours(3, refs, z, 0, 2) == 1
    ensures LiveNeighbours(3, refs, z, 1, 0) == 1
    ensures LiveNeighbours(3, refs, z, 1, 2) == 1
    ensures LiveNeighbours(3, refs, z, 2, 0) == 1
    ensures LiveNeighbours(3, refs, z, 2, 1) == 1
    ensures LiveNeighbours(3, refs, z, 2, 2) == 1
  {
    CountsInThreeByThree(refs, z);
  }

  /** The blinker: of three live cells in the middle column, the middle one
      survives with two neighbours and the two ends die with one; the two dead
      ends of the middle row are born with three, and the four corners stay
      dead. The probes that cross a row's end land on dead cells here, so the
      vertical bar becomes the horizontal bar, as on an unbounded board. */
  lemma BlinkerTurns(refs: seq<int>, a: Arena)
    requires ThreeByThree(refs, a)
    requires a.z == [0, 1, 0, 0, 1, 0, 0, 1, 0]
    requires a.alive == [false, true, false, false, true, false, false, true, false]
    ensures RefsWithin(refs, |a.z|)
    ensures !NextAlive(a.alive[0], LiveNeighbours(3, refs, a.z, 0, 0))
    ensures !NextAlive(a.alive[1], LiveNeighbours(3, refs, a.z, 0, 1))
    ensures !NextAlive(a.alive[2], LiveNeighbours(3, refs, a.z, 0, 2))
    ensures NextAlive(a.alive[3], LiveNeighbours(3, refs, a.z, 1, 0))
    ensures NextAlive(a.alive[4], LiveNeighbours(3, refs, a.z, 1, 1))
    ensures NextAlive(a.alive[5], LiveNeighbours(3, refs, a.z, 1, 2))
    ensures !NextAlive(a.alive[6], LiveNeighbours(3, refs, a.z, 2, 0))
    ensures !NextAlive(a.alive[7], LiveNeighbours(3, refs, a.z, 2, 1))
    ensures !NextAlive(a.alive[8], LiveNeighbours(3, refs, a.z, 2, 2))
  {
    CountsInThreeByThree(refs, a.z);
  }

  /** The row seam: the cell at the end of row 0 counts the live cell at the
      start of row 1 as a neighbour, through its probe (0, 3). */
  lemma SeamCountsNextRow(refs: seq<int>, a: Arena)
    requires ThreeByThree(refs, a)
    requires a.z == [0, 0, 0, 1, 0, 0, 0, 0, 0]
    requires a.alive == [false, false, false, true, false, false, false, false, false]
    ensures RefsWithin(refs, |a.z|)
    ensures LiveNeighbours(3, refs, a.z, 0, 2) == 1
  {
    CountsInThreeByThree(refs, a.z);
  }
}
