/** Grid construction: the command snapshot the UI writes, and what CreateGrid
    leaves in the cell store. CreateGrid instantiates Size.x * Size.y cell
    entities with the prefab's zero components, then runs x over [0, Size.x) and,
    inside, y over [0, Size.y), writing cell (x, y, alive) into the entity in slot
    x * Size.x + y. The random generator is given as the sequence of values its
    NextFloat calls return; the k-th call happens in the k-th iteration, that is
    for (x, y) with k = x * Size.y + y, and only when Randomize is set. */
module Build {
  import opened Grid
  import opened Cells

  /** The command snapshot (InputData). */
  datatype InputData = InputData(
    sizeX: int, sizeY: int, percentageAlive: real,
    clear: bool, randomize: bool, playing: bool, queStep: bool)

  /** The shared holder the UI listeners write into and each update reads. */
  class InputHook {
    var value: InputData

    constructor (value: InputData)
      ensures this.value == value
    {
      this.value := value;
    }
  }

  /** Number of iterations a C# loop `for (i = 0; i < bound; i++)` runs. */
  function Count(bound: int): nat
  {
    if bound < 0 then 0 else bound
  }

  /** A freshly instantiated store of n cell entities: every component zero. */
  function Fresh(n: nat): (a: Arena)
    ensures WellFormed(a) && |a.alive| == n
  {
    Arena(seq(n, _ => 0), seq(n, _ => 0), seq(n, _ => 0), seq(n, _ => false))
  }

  /** Every write of the nested loops lands inside a store of n entities. */
  predicate WritesInRange(sizeX: int, sizeY: int, n: int)
  {
    forall x, y :: 0 <= x < sizeX && 0 <= y < sizeY ==> 0 <= Slot(sizeX, x, y) < n
  }

  lemma IterationIndex(x: int, y: int, sizeY: int)
    requires 0 <= x && 0 <= y < sizeY
    ensures 0 <= x * sizeY + y
  {
    MulMonotone(sizeY, 0, x);
  }

  /** Whether the cell seeded by iteration (x, y) starts alive. */
  function Seed(input: InputData, draws: nat -> real, x: int, y: int): (alive: bool)
    requires 0 <= x && 0 <= y < input.sizeY
    ensures alive ==> input.randomize
  {
    IterationIndex(x, y, input.sizeY);
    input.randomize && draws(x * input.sizeY + y) < input.percentageAlive
  }

  /** One inner iteration: cell (x, y) with its seeded state goes into slot
      x * Size.x + y; z is 1 when alive and 0 otherwise. */
  function Write(a: Arena, input: InputData, draws: nat -> real, x: int, y: int): (r: Arena)
    requires WellFormed(a)
    requires 0 <= x && 0 <= y < input.sizeY
    requires 0 <= Slot(input.sizeX, x, y) < |a.alive|
    ensures WellFormed(r) && |r.alive| == |a.alive|
  {
    var s := Slot(input.sizeX, x, y);
    var alive := Seed(input, draws, x, y);
    Arena(a.cx[s := x], a.cy[s := y], a.z[s := Liveness(alive)], a.alive[s := alive])
  }

  /** The store after the first y iterations of row x. */
  function FillRow(a: Arena, input: InputData, draws: nat -> real, x: int, y: nat): (r: Arena)
    requires WellFormed(a) && WritesInRange(input.sizeX, input.sizeY, |a.alive|)
    requires 0 <= x < input.sizeX && y <= Count(input.sizeY)
    ensures WellFormed(r) && |r.alive| == |a.alive|
  {
    if y == 0 then a
    else Write(FillRow(a, input, draws, x, y - 1), input, draws, x, y - 1)
  }

  /** The store after the first x rows. */
  function FillRows(a: Arena, input: InputData, draws: nat -> real, x: nat): (r: Arena)
    requires WellFormed(a) && WritesInRange(input.sizeX, input.sizeY, |a.alive|)
    requires x <= Count(input.sizeX)
    ensures WellFormed(r) && |r.alive| == |a.alive|
  {
    if x == 0 then a
    else FillRow(FillRows(a, input, draws, x - 1), input, draws, x - 1, Count(input.sizeY))
  }

  /** The sizes whose nested loops stay inside an entity array of Size.x *
      Size.y entries, computed without overflow. */
  predicate Fits(input: InputData)
  {
    input.sizeX * input.sizeY >= 0 && WritesInRange(input.sizeX, input.sizeY, input.sizeX * input.sizeY)
  }

  /** One past the largest value of a C# int. */
  const IntLimit := 0x8000_0000

  /** The requests CreateGrid can carry out: the 32-bit product Size.x * Size.y
      is the true product, so the entity array has that many entries, and no
      write runs past it. Every slot x * Size.x + y then lies below the product,
      so the slot arithmetic does not overflow either. */
  predicate Buildable(input: InputData)
  {
    Fits(input) && input.sizeX * input.sizeY < IntLimit
  }

  /** The cell store CreateGrid leaves. */
  function Built(input: InputData, draws: nat -> real): (r: Arena)
    requires Fits(input)
    ensures WellFormed(r) && |r.alive| == input.sizeX * input.sizeY
  {
    FillRows(Fresh(input.sizeX * input.sizeY), input, draws, Count(input.sizeX))
  }

  // ---------------------------------------------------------------------------
  // Which sizes CreateGrid can build.

  /** For positive sizes, no write runs past the entity array exactly when the
      grid is one row wide or at least as tall as it is wide. */
  lemma WritesInRangeIff(sizeX: int, sizeY: int)
    requires sizeX > 0 && sizeY > 0
    ensures WritesInRange(sizeX, sizeY, sizeX * sizeY) <==> sizeX == 1 || sizeY >= sizeX
  {
    if sizeX == 1 || sizeY >= sizeX {
      forall x, y | 0 <= x < sizeX && 0 <= y < sizeY
        ensures 0 <= Slot(sizeX, x, y) < sizeX * sizeY
      {
        WriteInRange(sizeX, sizeY, x, y);
      }
    } else {
      LastWriteOutOfRange(sizeX, sizeY);
    }
  }

  lemma WriteInRange(sizeX: int, sizeY: int, x: int, y: int)
    requires sizeX == 1 || sizeY >= sizeX
    requires 0 <= x < sizeX && 0 <= y < sizeY
    ensures 0 <= Slot(sizeX, x, y) < sizeX * sizeY
  {
    MulMonotone(sizeX, 0, x);
    MulMonotone(sizeX, x, sizeX - 1);
    MulMonotone(sizeX - 1, sizeX, sizeY);
    assert sizeX * (sizeX - 1) + sizeY - 1 < sizeX * sizeY by {
      assert sizeX * (sizeX - 1) - sizeX * sizeY == (sizeX - 1) * sizeX - (sizeX - 1) * sizeY - sizeY;
    }
  }

  /** When the grid is wider than it is tall (and at least 2 wide), the last
      iteration writes past the end of the entity array. */
  lemma LastWriteOutOfRange(sizeX: int, sizeY: int)
    requires sizeY > 0 && sizeX > 1 && sizeY < sizeX
    ensures Slot(sizeX, sizeX - 1, sizeY - 1) >= sizeX * sizeY
  {
    MulMonotone(sizeX - 1, 1, sizeX - sizeY);
    assert Slot(sizeX, sizeX - 1, sizeY - 1) - sizeX * sizeY == (sizeX - 1) * (sizeX - sizeY) - 1;
  }

  /** The writes of a square grid always stay in range, and the grid can be
      built exactly when its side is at most 46340: beyond that the 32-bit
      product Size.x * Size.y overflows. */
  lemma SquareBuildable(input: InputData)
    requires input.sizeX == input.sizeY >= 0
    ensures Fits(input)
    ensures Buildable(input) <==> input.sizeX <= 46340
  {
    var n := input.sizeX;
    if n > 0 {
      WritesInRangeIff(n, n);
    }
    if n <= 46340 {
      MulMonotone(n, n, 46340);
      MulMonotone(46340, n, 46340);
    } else {
      MulMonotone(n, 46341, n);
      MulMonotone(46341, 46341, n);
    }
  }

  // ---------------------------------------------------------------------------
  // What every built store satisfies, whatever its shape.

  /** Each cell's liveness mirrors its Alive flag after construction. */
  lemma {:induction false} FillRowsMirrored(a: Arena, input: InputData, draws: nat -> real, x: nat)
    requires WellFormed(a) && Mirrored(a) && WritesInRange(input.sizeX, input.sizeY, |a.alive|)
    requires x <= Count(input.sizeX)
    ensures Mirrored(FillRows(a, input, draws, x))
  {
    if x > 0 {
      FillRowsMirrored(a, input, draws, x - 1);
      FillRowMirrored(FillRows(a, input, draws, x - 1), input, draws, x - 1, Count(input.sizeY));
    }
  }

  lemma {:induction false} FillRowMirrored(a: Arena, input: InputData, draws: nat -> real, x: int, y: nat)
    requires WellFormed(a) && Mirrored(a) && WritesInRange(input.sizeX, input.sizeY, |a.alive|)
    requires 0 <= x < input.sizeX && y <= Count(input.sizeY)
    ensures Mirrored(FillRow(a, input, draws, x, y))
  {
    if y > 0 {
      FillRowMirrored(a, input, draws, x, y - 1);
    }
  }

  /** After construction every cell's z is 1 exactly when it is alive. */
  lemma BuiltMirrored(input: InputData, draws: nat -> real)
    requires Fits(input)
    ensures Mirrored(Built(input, draws)) && Binary(Built(input, draws).z)
  {
    FillRowsMirrored(Fresh(input.sizeX * input.sizeY), input, draws, Count(input.sizeX));
  }

  /** Every cell stores a grid position after construction: written cells hold
      their loop position, and cells no iteration writes keep the prefab's
      (0, 0), which lies in the grid when both sizes are positive. */
  lemma {:induction false} FillRowsInGrid(a: Arena, input: InputData, draws: nat -> real, x: nat)
    requires WellFormed(a) && WritesInRange(input.sizeX, input.sizeY, |a.alive|)
    requires InGrid(a, input.sizeX, input.sizeY)
    requires x <= Count(input.sizeX)
    ensures InGrid(FillRows(a, input, draws, x), input.sizeX, input.sizeY)
  {
    if x > 0 {
      FillRowsInGrid(a, input, draws, x - 1);
      FillRowInGrid(FillRows(a, input, draws, x - 1), input, draws, x - 1, Count(input.sizeY));
    }
  }

  lemma {:induction false} FillRowInGrid(a: Arena, input: InputData, draws: nat -> real, x: int, y: nat)
    requires WellFormed(a) && WritesInRange(input.sizeX, input.sizeY, |a.alive|)
    requires InGrid(a, input.sizeX, input.sizeY)
    requires 0 <= x < input.sizeX && y <= Count(input.sizeY)
    ensures InGrid(FillRow(a, input, draws, x, y), input.sizeX, input.sizeY)
  {
    if y > 0 {
      FillRowInGrid(a, input, draws, x, y - 1);
    }
  }

  /** For positive sizes every built cell stores a position of the grid. */
  lemma BuiltInGrid(input: InputData, draws: nat -> real)
    requires Fits(input) && input.sizeX > 0 && input.sizeY > 0
    ensures InGrid(Built(input, draws), input.sizeX, input.sizeY)
  {
    FillRowsInGrid(Fresh(input.sizeX * input.sizeY), input, draws, Count(input.sizeX));
  }

  /** A press outside the grid's rectangle leaves a freshly built grid as it
      is. */
  lemma PressOutsideBuiltGridIsNoop(input: InputData, draws: nat -> real, left: bool, right: bool, p: Point)
    requires Fits(input) && input.sizeX > 0 && input.sizeY > 0
    requires OutsideGrid(p, input.sizeX, input.sizeY)
    ensures Edit(Built(input, draws), left, right, p) == Built(input, draws)
  {
    BuiltInGrid(input, draws);
    EditOutsideGridIsNoop(Built(input, draws), left, right, p, input.sizeX, input.sizeY);
  }

  /** Two negative sizes give a positive entity count, while the loops never
      run: every entity keeps the prefab's zero components, dead at (0, 0). */
  lemma NegativeSizesBuildUnwrittenGrid(input: InputData, draws: nat -> real)
    requires input.sizeX < 0 && input.sizeY < 0
    ensures Fits(input) && input.sizeX * input.sizeY > 0
    ensures Built(input, draws) == Fresh(input.sizeX * input.sizeY)
  {
    MulMonotone(-input.sizeX, 1, -input.sizeY);
  }

  /** So in such a grid, which has no in-grid position at all, a left press
      inside the unit square (0, 1) by (0, 1) brings every entity to life. */
  lemma PressEditsNegativeSizedGrid(input: InputData, draws: nat -> real, right: bool)
    requires input.sizeX < 0 && input.sizeY < 0
    ensures Fits(input)
    ensures var e := Edit(Built(input, draws), true, right, Point(0.5, 0.5));
      |e.alive| > 0 && forall i :: 0 <= i < |e.alive| ==> e.alive[i] && e.z[i] == 1
  {
    NegativeSizesBuildUnwrittenGrid(input, draws);
  }

  /** A cell is alive after construction only if some iteration seeded it alive:
      if no iteration does, the whole store is dead. */
  lemma {:induction false} FillRowsDead(a: Arena, input: InputData, draws: nat -> real, x: nat)
    requires WellFormed(a) && WritesInRange(input.sizeX, input.sizeY, |a.alive|)
    requires x <= Count(input.sizeX)
    requires forall i :: 0 <= i < |a.alive| ==> !a.alive[i]
    requires forall x', y' :: 0 <= x' < input.sizeX && 0 <= y' < input.sizeY ==> !Seed(input, draws, x', y')
    ensures forall i :: 0 <= i < |a.alive| ==> !FillRows(a, input, draws, x).alive[i]
  {
    if x > 0 {
      FillRowsDead(a, input, draws, x - 1);
      FillRowDead(FillRows(a, input, draws, x - 1), input, draws, x - 1, Count(input.sizeY));
    }
  }

  lemma {:induction false} FillRowDead(a: Arena, input: InputData, draws: nat -> real, x: int, y: nat)
    requires WellFormed(a) && WritesInRange(input.sizeX, input.sizeY, |a.alive|)
    requires 0 <= x < input.sizeX && y <= Count(input.sizeY)
    requires forall i :: 0 <= i < |a.alive| ==> !a.alive[i]
    requires forall x', y' :: 0 <= x' < input.sizeX && 0 <= y' < input.sizeY ==> !Seed(input, draws, x', y')
    ensures forall i :: 0 <= i < |a.alive| ==> !FillRow(a, input, draws, x, y).alive[i]
  {
    if y > 0 {
      FillRowDead(a, input, draws, x, y - 1);
    }
  }

  /** Clear (Randomize not set) builds an all-dead grid, whatever the draws. */
  lemma ClearBuildsDeadGrid(input: InputData, draws: nat -> real)
    requires Fits(input) && !input.randomize
    ensures forall i :: 0 <= i < |Built(input, draws).alive| ==>
      !Built(input, draws).alive[i] && Built(input, draws).z[i] == 0
  {
    FillRowsDead(Fresh(input.sizeX * input.sizeY), input, draws, Count(input.sizeX));
    BuiltMirrored(input, draws);
  }

  /** With draws in [0, 1), a percentage of 0 or less builds an all-dead grid. */
  lemma NoPercentageBuildsDeadGrid(input: InputData, draws: nat -> real)
    requires Fits(input) && input.percentageAlive <= 0.0
    requires forall k: nat :: 0.0 <= draws(k) < 1.0
    ensures forall i :: 0 <= i < |Built(input, draws).alive| ==>
      !Built(input, draws).alive[i] && Built(input, draws).z[i] == 0
  {
    FillRowsDead(Fresh(input.sizeX * input.sizeY), input, draws, Count(input.sizeX));
    BuiltMirrored(input, draws);
  }

  // ---------------------------------------------------------------------------
  // Square and one-wide grids: every cell is written once, into its own slot.

  /** The shapes whose slot map x * Size.x + y sends distinct in-loop
      positions to distinct slots: square grids and grids one wide. */
  predicate WritesOnce(input: InputData)
  {
    input.sizeX == input.sizeY || input.sizeX == 1
  }

  /** Such grids of non-negative size keep every write in range. */
  lemma WritesOnceFits(input: InputData)
    requires WritesOnce(input) && input.sizeX >= 0 && input.sizeY >= 0
    ensures Fits(input)
  {
    if input.sizeX == input.sizeY {
      SquareBuildable(input);
    } else if input.sizeY > 0 {
      WritesInRangeIff(input.sizeX, input.sizeY);
    }
  }

  /** The cell in slot s holds coordinates (x, y) and Alive flag alive, with z
      matching. */
  predicate HoldsCell(a: Arena, s: int, x: int, y: int, alive: bool)
    requires WellFormed(a) && 0 <= s < |a.alive|
  {
    a.cx[s] == x && a.cy[s] == y && a.alive[s] == alive && a.z[s] == Liveness(alive)
  }

  /** In a square or one-wide grid, the first y iterations of row x write each
      cell (x, y0) with y0 < y into its own slot and leave every other in-grid
      slot unchanged. */
  lemma {:induction false} FillRowAt(a: Arena, input: InputData, draws: nat -> real, x: int, y: nat, x0: int, y0: int)
    requires WellFormed(a) && WritesInRange(input.sizeX, input.sizeY, |a.alive|)
    requires WritesOnce(input)
    requires 0 <= x < input.sizeX && y <= Count(input.sizeY)
    requires 0 <= x0 < input.sizeX && 0 <= y0 < input.sizeY
    ensures 0 <= Slot(input.sizeX, x0, y0) < |a.alive|
    ensures var s := Slot(input.sizeX, x0, y0);
      var r := FillRow(a, input, draws, x, y);
      if x0 == x && y0 < y then HoldsCell(r, s, x0, y0, Seed(input, draws, x0, y0))
      else r.cx[s] == a.cx[s] && r.cy[s] == a.cy[s] && r.z[s] == a.z[s] && r.alive[s] == a.alive[s]
  {
    if y > 0 {
      FillRowAt(a, input, draws, x, y - 1, x0, y0);
      if Slot(input.sizeX, x, y - 1) == Slot(input.sizeX, x0, y0) && input.sizeX == input.sizeY {
        SlotInjective(input.sizeX, x, y - 1, x0, y0);
      }
    }
  }

  /** The same across the first x rows: every cell (x0, y0) with x0 < x is in
      its own slot, and the other in-grid slots are unchanged. */
  lemma {:induction false} FillRowsAt(a: Arena, input: InputData, draws: nat -> real, x: nat, x0: int, y0: int)
    requires WellFormed(a) && WritesInRange(input.sizeX, input.sizeY, |a.alive|)
    requires WritesOnce(input)
    requires x <= Count(input.sizeX)
    requires 0 <= x0 < input.sizeX && 0 <= y0 < input.sizeY
    ensures 0 <= Slot(input.sizeX, x0, y0) < |a.alive|
    ensures var s := Slot(input.sizeX, x0, y0);
      var r := FillRows(a, input, draws, x);
      if x0 < x then HoldsCell(r, s, x0, y0, Seed(input, draws, x0, y0))
      else r.cx[s] == a.cx[s] && r.cy[s] == a.cy[s] && r.z[s] == a.z[s] && r.alive[s] == a.alive[s]
  {
    if x > 0 {
      FillRowsAt(a, input, draws, x - 1, x0, y0);
      FillRowAt(FillRows(a, input, draws, x - 1), input, draws, x - 1, Count(input.sizeY), x0, y0);
    }
  }

  /** In a square or one-wide grid the cell in slot x * Size.x + y holds
      coordinates (x, y), and it is alive exactly when Randomize is set and the
      draw of iteration x * Size.y + y is below the percentage. */
  lemma BuiltCellAt(input: InputData, draws: nat -> real, x: int, y: int)
    requires WritesOnce(input)
    requires 0 <= x < input.sizeX && 0 <= y < input.sizeY
    ensures Fits(input)
    ensures 0 <= Slot(input.sizeX, x, y) < |Built(input, draws).alive|
    ensures HoldsCell(Built(input, draws), Slot(input.sizeX, x, y), x, y, Seed(input, draws, x, y))
  {
    WritesOnceFits(input);
    FillRowsAt(Fresh(input.sizeX * input.sizeY), input, draws, Count(input.sizeX), x, y);
  }

  /** In a square grid every cell is written: slot s holds the cell
      (s / n, s % n). */
  lemma BuiltSquareSlot(input: InputData, draws: nat -> real, s: int)
    requires input.sizeX == input.sizeY >= 0
    requires 0 <= s < input.sizeX * input.sizeY
    ensures Fits(input) && |Built(input, draws).alive| == input.sizeX * input.sizeY
    ensures var n := input.sizeX;
      0 <= s / n < n && 0 <= s % n < n
      && HoldsCell(Built(input, draws), s, s / n, s % n, Seed(input, draws, s / n, s % n))
  {
    var n := input.sizeX;
    SlotInverse(n, s);
    var x, y := s / n, s % n;
    BuiltCellAt(input, draws, x, y);
    assert Slot(n, x, y) == s;
  }

  /** With draws in [0, 1), Randomize and a percentage of 1 or more build an
      all-alive grid when it is square or one wide. */
  lemma FullPercentageBuildsLiveGrid(input: InputData, draws: nat -> real)
    requires WritesOnce(input) && input.sizeX >= 0 && input.sizeY >= 0
    requires input.randomize && input.percentageAlive >= 1.0
    requires forall k: nat :: 0.0 <= draws(k) < 1.0
    ensures Fits(input)
    ensures forall i :: 0 <= i < |Built(input, draws).alive| ==>
      Built(input, draws).alive[i] && Built(input, draws).z[i] == 1
  {
    WritesOnceFits(input);
    forall i | 0 <= i < |Built(input, draws).alive|
      ensures Built(input, draws).alive[i] && Built(input, draws).z[i] == 1
    {
      if input.sizeX == input.sizeY {
        BuiltSquareSlot(input, draws, i);
      } else {
        BuiltCellAt(input, draws, 0, i);
      }
    }
  }

  /** In a square or one-wide grid built with the blob holding entity i in
      slot i, looking up any in-grid position finds the cell whose stored
      coordinates are that position. */
  lemma LookupFindsBuiltCell(input: InputData, draws: nat -> real, x: int, y: int)
    requires WritesOnce(input)
    requires 0 <= x < input.sizeX && 0 <= y < input.sizeY
    ensures Fits(input)
    ensures var refs := Identity(input.sizeX * input.sizeY);
      var e := Lookup(input.sizeX, refs, x, y);
      e.Some? && 0 <= e.value < |Built(input, draws).alive|
      && Built(input, draws).cx[e.value] == x && Built(input, draws).cy[e.value] == y
  {
    BuiltCellAt(input, draws, x, y);
  }

  // ---------------------------------------------------------------------------
  // Grids taller than wide: slots collide and some entities are never written.

  /** Within one row the writes never collide, whatever the shape: after the
      first y iterations of row x, slot Size.x * x + y0 holds the coordinates
      (x, y0) for each y0 < y, and every other slot is unchanged. */
  lemma {:induction false} FillRowSlots(a: Arena, input: InputData, draws: nat -> real, x: int, y: nat, s: int)
    requires WellFormed(a) && WritesInRange(input.sizeX, input.sizeY, |a.alive|)
    requires 0 <= x < input.sizeX && y <= Count(input.sizeY)
    requires 0 <= s < |a.alive|
    ensures var r := FillRow(a, input, draws, x, y);
      var y0 := s - Slot(input.sizeX, x, 0);
      if 0 <= y0 < y then r.cx[s] == x && r.cy[s] == y0
      else r.cx[s] == a.cx[s] && r.cy[s] == a.cy[s] && r.z[s] == a.z[s] && r.alive[s] == a.alive[s]
  {
    if y > 0 {
      FillRowSlots(a, input, draws, x, y - 1, s);
    }
  }

  /** In a 2-by-3 grid the iterations (0, 2) and (1, 0) both write slot 2, so
      the later one wins, while no iteration writes slot 5: that entity keeps
      the prefab's zero components and sits at (0, 0) beside the real cell
      (0, 0) in slot 0. The other fields of the input are left free. */
  lemma TallGridCollides(draws: nat -> real, percentageAlive: real, clear: bool, randomize: bool, playing: bool, queStep: bool)
    ensures Buildable(InputData(2, 3, percentageAlive, clear, randomize, playing, queStep))
    ensures var a := Built(InputData(2, 3, percentageAlive, clear, randomize, playing, queStep), draws);
      |a.alive| == 6
      && a.cx[2] == 1 && a.cy[2] == 0
      && a.cx[5] == 0 && a.cy[5] == 0 && !a.alive[5] && a.z[5] == 0
      && a.cx[0] == 0 && a.cy[0] == 0
  {
    var input := InputData(2, 3, percentageAlive, clear, randomize, playing, queStep);
    TallGridBuildable(input);
    TallGridSlot(input, draws, 0);
    TallGridSlot(input, draws, 2);
    TallGridSlot(input, draws, 5);
  }

  /** Slots 0, 2 and 5 of the built 2-by-3 grid, one at a time: row 0 writes
      (0, 0) into slot 0 and (0, 2) into slot 2, row 1 then overwrites slot 2
      with (1, 0), and neither row reaches slot 5. */
  lemma TallGridSlot(input: InputData, draws: nat -> real, s: int)
    requires input == InputData(2, 3, input.percentageAlive, input.clear, input.randomize, input.playing, input.queStep)
    requires s == 0 || s == 2 || s == 5
    ensures Fits(input) && |Built(input, draws).alive| == 6
    ensures var a := Built(input, draws);
      && (s == 0 ==> a.cx[0] == 0 && a.cy[0] == 0)
      && (s == 2 ==> a.cx[2] == 1 && a.cy[2] == 0)
      && (s == 5 ==> a.cx[5] == 0 && a.cy[5] == 0 && !a.alive[5] && a.z[5] == 0)
  {
    TallGridBuildable(input);
    var a0 := Fresh(6);
    FillRowsNext(a0, input, draws, 0);
    FillRowsNext(a0, input, draws, 1);
    FillRowSlots(a0, input, draws, 0, 3, s);
    FillRowSlots(FillRows(a0, input, draws, 1), input, draws, 1, 3, s);
  }

  /** A slot that row x0 cannot reach for any x0 < x, because it lies Size.y or
      more past the row's first slot, keeps its contents through the first x
      rows. */
  lemma {:induction false} RowsSkipSlot(a: Arena, input: InputData, draws: nat -> real, x: nat, s: int)
    requires WellFormed(a) && WritesInRange(input.sizeX, input.sizeY, |a.alive|)
    requires x <= Count(input.sizeX) && 0 <= s < |a.alive|
    requires forall x0 :: 0 <= x0 < x ==> s - Slot(input.sizeX, x0, 0) >= input.sizeY
    ensures var r := FillRows(a, input, draws, x);
      r.cx[s] == a.cx[s] && r.cy[s] == a.cy[s] && r.z[s] == a.z[s] && r.alive[s] == a.alive[s]
  {
    if x > 0 {
      RowsSkipSlot(a, input, draws, x - 1, s);
      FillRowSlots(FillRows(a, input, draws, x - 1), input, draws, x - 1, Count(input.sizeY), s);
    }
  }

  /** In every grid taller than wide and at least 2 wide that passes the range
      check, the last entity is never written: the largest slot the loops
      reach is Size.x * (Size.x - 1) + Size.y - 1, below Size.x * Size.y - 1.
      That entity keeps the prefab's zero components: dead, at (0, 0). */
  lemma TallGridLastEntityUnwritten(input: InputData, draws: nat -> real)
    requires Fits(input) && input.sizeX >= 2 && input.sizeY > input.sizeX
    ensures var a := Built(input, draws);
      var s := input.sizeX * input.sizeY - 1;
      0 <= s < |a.alive| && a.cx[s] == 0 && a.cy[s] == 0 && !a.alive[s] && a.z[s] == 0
  {
    LastSlotBeyondRows(input.sizeX, input.sizeY);
    RowsSkipSlot(Fresh(input.sizeX * input.sizeY), input, draws, Count(input.sizeX), input.sizeX * input.sizeY - 1);
  }

  /** In an n-by-m grid with 2 <= n < m, the last slot n * m - 1 lies at least
      m past the first slot n * x0 of every row x0. */
  lemma LastSlotBeyondRows(n: int, m: int)
    requires 2 <= n < m
    ensures n * m - 1 >= 0
    ensures forall x0 :: 0 <= x0 < n ==> n * m - 1 - Slot(n, x0, 0) >= m
  {
    MulMonotone(n - 1, n + 1, m);
    forall x0 | 0 <= x0 < n
      ensures n * m - 1 - Slot(n, x0, 0) >= m
    {
      MulMonotone(n, x0, n - 1);
    }
  }

  /** A 2-by-3 grid passes the range check: every slot 2x + y of its loops is
      below 6, although two of them coincide. */
  lemma TallGridBuildable(input: InputData)
    requires input.sizeX == 2 && input.sizeY == 3
    ensures Buildable(input) && input.sizeX * input.sizeY == 6
  {
    WritesInRangeIff(2, 3);
  }

  /** The rows are filled one after another, starting from the store as it is. */
  lemma FillRowsNext(a: Arena, input: InputData, draws: nat -> real, x: nat)
    requires WellFormed(a) && WritesInRange(input.sizeX, input.sizeY, |a.alive|)
    requires x < Count(input.sizeX)
    ensures FillRows(a, input, draws, 0) == a
    ensures FillRows(a, input, draws, x + 1)
      == FillRow(FillRows(a, input, draws, x), input, draws, x, Count(input.sizeY))
  {
  }
}
