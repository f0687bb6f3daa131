/** GridControlPanelSystem: the per-frame update that rebuilds the grid on a
    Clear or Randomize command, applies the pointer edit, runs the step pass when
    the clock or a queued single step says so, and then refreshes every cell's
    liveness from its Alive flag. The GridData singleton (size and reference
    blob) and the cell components live in its fields; each parallel pass is a
    sequential loop, which is faithful because no pass writes what another cell
    reads in the same pass. */
module ControlPanel {
  import opened Grid
  import opened Cells
  import opened Life
  import opened Build

  class GridControlPanelSystem {
    const input: InputHook

    // GridData: the size and the reference blob (entity of every flat slot).
    var sizeX: int
    var sizeY: int
    var refs: seq<int>

    // Components of the cell entities, indexed by entity.
    var cx: array<int>
    var cy: array<int>
    var z: array<int>
    var alive: array<bool>

    var simDeltaTime: real
    var nextSimTime: real

    /** One component entry per entity in the blob. */
    ghost predicate Shaped()
      reads this
    {
      cx.Length == cy.Length == z.Length == alive.Length == |refs|
    }

    /** The class invariant: the blob holds entity i in slot i, z holds only 0
        and 1, and in a grid of positive size every cell stores a position of
        the grid. */
    ghost predicate Valid()
      reads this, cx, cy, z, alive
    {
      && Shaped()
      && cx != cy && z != cx && z != cy
      && IsIdentity(refs) && RefsWithin(refs, z.Length)
      && Binary(z[..])
      && (sizeX > 0 && sizeY > 0 ==> InGrid(Store(), sizeX, sizeY))
    }

    /** The cell store as a value. */
    ghost function Store(): (a: Arena)
      reads this, cx, cy, z, alive
      requires Shaped()
      ensures WellFormed(a) && |a.alive| == |refs|
    {
      Arena(cx[..], cy[..], z[..], alive[..])
    }

    /** The system before its first update: the GridData singleton carries the
        start size and no cells yet. */
    constructor (input: InputHook, startSizeX: int, startSizeY: int, simDeltaTime: real)
      ensures Valid() && this.input == input
      ensures sizeX == startSizeX && sizeY == startSizeY && refs == []
      ensures fresh(cx) && fresh(cy) && fresh(z) && fresh(alive)
      ensures this.simDeltaTime == simDeltaTime && nextSimTime == 0.0
    {
      this.input := input;
      sizeX, sizeY, refs := startSizeX, startSizeY, [];
      cx, cy, z, alive := new int[0], new int[0], new int[0], new bool[0];
      this.simDeltaTime, nextSimTime := simDeltaTime, 0.0;
    }

    /** Replaces the grid with Size.x * Size.y fresh cells, seeded as the
        command asks. */
    method CreateGrid(command: InputData, draws: nat -> real)
      requires Buildable(command)
      modifies this
      ensures Valid() && fresh(cx) && fresh(cy) && fresh(z) && fresh(alive)
      ensures sizeX == command.sizeX && sizeY == command.sizeY
      ensures refs == Identity(command.sizeX * command.sizeY)
      ensures Store() == Built(command, draws)
      ensures simDeltaTime == old(simDeltaTime) && nextSimTime == old(nextSimTime)
    {
      var total := command.sizeX * command.sizeY;
      refs := CopyReferences(total);
      sizeX, sizeY := command.sizeX, command.sizeY;
      Allocate(total);
      SeedRows(command, draws);
      BuiltMirrored(command, draws);
      if command.sizeX > 0 && command.sizeY > 0 {
        BuiltInGrid(command, draws);
      }
    }

    /** Instantiates `total` cell entities with zeroed components. */
    method Allocate(total: nat)
      requires |refs| == total
      modifies this`cx, this`cy, this`z, this`alive
      ensures fresh(cx) && fresh(cy) && fresh(z) && fresh(alive)
      ensures Shaped() && cx != cy && z != cx && z != cy
      ensures Store() == Fresh(total)
    {
      cx, cy, z := new int[total](_ => 0), new int[total](_ => 0), new int[total](_ => 0);
      alive := new bool[total](_ => false);
      assert Store() == Fresh(total);
    }

    /** The outer loop of CreateGrid: rows x = 0 .. Size.x - 1 in order. */
    method SeedRows(command: InputData, draws: nat -> real)
      requires Shaped() && cx != cy && z != cx && z != cy
      requires WritesInRange(command.sizeX, command.sizeY, alive.Length)
      requires command.sizeX * command.sizeY == alive.Length
      requires Store() == Fresh(alive.Length)
      modifies cx, cy, z, alive
      ensures Store() == Built(command, draws)
    {
      var x := 0;
      while x < command.sizeX
        invariant 0 <= x <= Count(command.sizeX)
        invariant Store() == FillRows(Fresh(alive.Length), command, draws, x)
      {
        SeedRow(command, draws, x);
        x := x + 1;
      }
    }

    /** The reference blob: slot i holds the i-th instantiated entity. */
    static method CopyReferences(total: nat) returns (blob: seq<int>)
      ensures blob == Identity(total)
    {
      var slots := new int[total];
      for i := 0 to total
        invariant forall k :: 0 <= k < i ==> slots[k] == k
      {
        slots[i] := i;
      }
      blob := slots[..];
    }

    /** The inner loop of CreateGrid for row x: cell (x, y) goes into slot
        x * Size.x + y. */
    method SeedRow(command: InputData, draws: nat -> real, x: int)
      requires Shaped() && cx != cy && z != cx && z != cy
      requires WritesInRange(command.sizeX, command.sizeY, alive.Length)
      requires 0 <= x < command.sizeX
      modifies cx, cy, z, alive
      ensures Store() == FillRow(old(Store()), command, draws, x, Count(command.sizeY))
    {
      ghost var before := Store();
      var y := 0;
      while y < command.sizeY
        invariant 0 <= y <= Count(command.sizeY)
        invariant Store() == FillRow(before, command, draws, x, y)
      {
        ghost var done := Store();
        var index := Slot(command.sizeX, x, y);
        var seeded := Seed(command, draws, x, y);
        var liveness := Liveness(seeded);
        cx[index] := x;
        cy[index] := y;
        z[index] := liveness;
        alive[index] := liveness == 1;
        assert Store() == Write(done, command, draws, x, y);
        y := y + 1;
      }
    }

    /** The pointer pass: every cell strictly containing the pressed point is
        forced alive (left button) or dead (right button). */
    method Edit(left: bool, right: bool, pressed: Point)
      requires Valid()
      modifies z, alive
      ensures Valid()
      ensures Store() == Cells.Edit(old(Store()), left, right, pressed)
    {
      ghost var before := Store();
      ghost var after := Cells.Edit(before, left, right, pressed);
      for i := 0 to alive.Length
        invariant forall k :: 0 <= k < i ==> alive[k] == after.alive[k] && z[k] == after.z[k]
        invariant forall k :: i <= k < alive.Length ==> alive[k] == before.alive[k] && z[k] == before.z[k]
      {
        if Contains(cx[i], cy[i], pressed) {
          if left {
            alive[i] := true;
            z[i] := 1;
          } else if right {
            alive[i] := false;
            z[i] := 0;
          }
        }
      }
      assert alive[..] == after.alive && z[..] == after.z;
    }

    /** The step pass: every cell's Alive flag becomes the rule applied to its
        neighbour count over z; z itself is not written. */
    method Step()
      requires Valid()
      modifies alive
      ensures Valid()
      ensures Store() == Life.Step(sizeX, refs, old(Store()))
    {
      ghost var before := Store();
      ghost var next := StepCells(sizeX, refs, before);
      for i := 0 to alive.Length
        invariant alive[..i] == next[..i]
        invariant alive[i..] == before.alive[i..]
        invariant z[..] == before.z
      {
        assert cx[i] == before.cx[i] && cy[i] == before.cy[i];
        var liveNeighbours := LiveNeighbours(sizeX, refs, z[..], cx[i], cy[i]);
        alive[i] := NextAlive(alive[i], liveNeighbours);
        assert alive[i] == next[i];
      }
      assert alive[..] == alive[..alive.Length] && next == next[..alive.Length];
    }

    /** The refresh pass: z := Alive ? 1 : 0 for every cell. */
    method Refresh()
      requires Valid()
      modifies z
      ensures Valid() && Mirrored(Store())
      ensures Store() == Cells.Refresh(old(Store()))
    {
      for i := 0 to z.Length
        invariant forall k :: 0 <= k < i ==> z[k] == Liveness(alive[k])
        invariant forall k :: i <= k < z.Length ==> z[k] == old(z[k])
      {
        z[i] := Liveness(alive[i]);
      }
      assert Store() == Cells.Refresh(old(Store()));
    }

    /** Whether this update runs the step pass. */
    static predicate Steps(command: InputData, time: real, nextSimTime: real): (r: bool)
      ensures command.queStep ==> r
      ensures !command.queStep && !command.playing ==> !r
      ensures !command.queStep && time <= nextSimTime ==> !r
    {
      (time > nextSimTime && command.playing) || command.queStep
    }

    /** Whether this update rebuilds the grid. */
    static predicate Rebuilds(command: InputData): (r: bool)
      ensures command.clear ==> r
      ensures command.randomize ==> r
      ensures !command.clear && !command.randomize ==> !r
    {
      command.clear || command.randomize
    }

    /** The first part of OnUpdate: an edge-triggered Clear or Randomize
        rebuilds the grid from the input's size and is then reset. */
    method Rebuild(draws: nat -> real)
      requires Valid()
      requires Rebuilds(input.value) ==> Buildable(input.value)
      modifies this, input
      ensures Valid()
      ensures input.value == old(input.value).(clear := false, randomize := false)
      ensures simDeltaTime == old(simDeltaTime) && nextSimTime == old(nextSimTime)
      ensures Rebuilds(old(input.value)) ==>
        && sizeX == old(input.value).sizeX && sizeY == old(input.value).sizeY
        && refs == Identity(old(input.value).sizeX * old(input.value).sizeY)
        && Store() == Built(old(input.value), draws)
        && fresh(cx) && fresh(cy) && fresh(z) && fresh(alive)
      ensures !Rebuilds(old(input.value)) ==>
        && sizeX == old(sizeX) && sizeY == old(sizeY) && refs == old(refs)
        && cx == old(cx) && cy == old(cy) && z == old(z) && alive == old(alive)
      ensures Store() == if Rebuilds(old(input.value)) then Built(old(input.value), draws) else old(Store())
    {
      var command := input.value;
      if Rebuilds(command) {
        CreateGrid(command, draws);
        input.value := input.value.(clear := false, randomize := false);
      }
    }

    /** The pointer part of OnUpdate: with either button down, the pressed
        point (the origin when the ray misses) edits the cells under it. */
    method Press(left: bool, right: bool, hit: Option<Point>)
      requires Valid()
      modifies z, alive
      ensures Valid()
      ensures Store() == if left || right then Cells.Edit(old(Store()), left, right, Pressed(hit)) else old(Store())
      // a press outside a grid of positive size changes no cell
      ensures sizeX > 0 && sizeY > 0 && OutsideGrid(Pressed(hit), sizeX, sizeY) ==> Store() == old(Store())
    {
      if left || right {
        if sizeX > 0 && sizeY > 0 && OutsideGrid(Pressed(hit), sizeX, sizeY) {
          EditOutsideGridIsNoop(Store(), left, right, Pressed(hit), sizeX, sizeY);
        }
        Edit(left, right, Pressed(hit));
      }
    }

    /** The gate of the step pass: when the clock has passed the next
        simulation time while playing, or a single step is queued, the queued
        step is consumed, the clock is advanced and the step pass runs. */
    method Advance(time: real)
      requires Valid()
      modifies this`nextSimTime, input, alive
      ensures Valid()
      ensures nextSimTime == (if Steps(old(input.value), time, old(nextSimTime)) then time + simDeltaTime else old(nextSimTime))
      ensures input.value == old(input.value).(queStep := false)
      ensures Store() == if Steps(old(input.value), time, old(nextSimTime)) then Life.Step(sizeX, refs, old(Store())) else old(Store())
    {
      var command := input.value;
      if Steps(command, time, nextSimTime) {
        input.value := input.value.(queStep := false);
        nextSimTime := time + simDeltaTime;
        Step();
      }
    }

    /** One OnUpdate. `time` is the elapsed time, `left` and `right` the mouse
        buttons, `hit` the pressed position in grid units (None when the ray
        misses the zero plane), `draws` the random values of a rebuild. */
    method Update(time: real, left: bool, right: bool, hit: Option<Point>, draws: nat -> real)
      requires Valid()
      requires Rebuilds(input.value) ==> Buildable(input.value)
      modifies this, input, cx, cy, z, alive
      ensures Valid()
      // rebuild on an edge-triggered Clear or Randomize, which are then reset
      ensures var command := old(input.value);
        if Rebuilds(command) then
          sizeX == command.sizeX && sizeY == command.sizeY && refs == Identity(command.sizeX * command.sizeY)
        else
          sizeX == old(sizeX) && sizeY == old(sizeY) && refs == old(refs)
      // a rebuild replaces the component arrays; otherwise they are kept
      ensures Rebuilds(old(input.value)) ==> fresh(cx) && fresh(cy) && fresh(z) && fresh(alive)
      ensures !Rebuilds(old(input.value)) ==>
        cx == old(cx) && cy == old(cy) && z == old(z) && alive == old(alive)
      // the step gate, its clock and the single-step flag
      ensures nextSimTime == (if Steps(old(input.value), time, old(nextSimTime)) then time + simDeltaTime else old(nextSimTime))
      ensures input.value == old(input.value).(clear := false, randomize := false, queStep := false)
      ensures simDeltaTime == old(simDeltaTime)
      // the new cell store
      ensures var command := old(input.value);
        var rebuilt := if Rebuilds(command) then Built(command, draws) else old(Store());
        var edited := if left || right then Cells.Edit(rebuilt, left, right, Pressed(hit)) else rebuilt;
        var stepped := if Steps(command, time, old(nextSimTime)) then Life.Step(sizeX, refs, edited) else edited;
        Store() == Cells.Refresh(stepped)
      ensures Mirrored(Store())
    {
      ghost var command := input.value;
      Rebuild(draws);
      Press(left, right, hit);
      ghost var edited := Store();
      Advance(time);
      assert Store() == if Steps(command, time, old(nextSimTime)) then Life.Step(sizeX, refs, edited) else edited;
      Refresh();
    }
  }
}
