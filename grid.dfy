/** The GridData indexer: from a grid position to the cell entity stored in the
    reference blob. The slot of (x, y) is Size.x * x + y, and the only check is
    that this flat slot lies inside the blob; the coordinates are not checked one
    by one, so a probe one step past a row's end lands in the next row. */
module Grid {

  datatype Option<T> = None | Some(value: T)

  /** Flat slot of position (x, y) in a grid whose width is sizeX. */
  function Slot(sizeX: int, x: int, y: int): int
  {
    sizeX * x + y
  }

  /** The indexer: the entity in the slot of (x, y), or None (Entity.Null)
      when that slot is negative or past the end of the blob. */
  function Lookup(sizeX: int, refs: seq<int>, x: int, y: int): Option<int>
  {
    var s := Slot(sizeX, x, y);
    if s < 0 || s >= |refs| then None else Some(refs[s])
  }

  /** The indexer returns Entity.Null exactly when the flat slot is outside the
      blob, and otherwise the entity stored in that slot. */
  lemma LookupNullIff(sizeX: int, refs: seq<int>, x: int, y: int)
    ensures Lookup(sizeX, refs, x, y).None? <==> Slot(sizeX, x, y) < 0 || Slot(sizeX, x, y) >= |refs|
    ensures Lookup(sizeX, refs, x, y).Some? ==>
      0 <= Slot(sizeX, x, y) < |refs| && Lookup(sizeX, refs, x, y).value == refs[Slot(sizeX, x, y)]
  {
  }

  /** Every entity in the blob names one of the first n arena slots. */
  predicate RefsWithin(refs: seq<int>, n: int)
  {
    forall k :: 0 <= k < |refs| ==> 0 <= refs[k] < n
  }

  /** The blob holds entity i in slot i, as the copy loop of CreateGrid leaves it. */
  predicate IsIdentity(refs: seq<int>)
  {
    forall k :: 0 <= k < |refs| ==> refs[k] == k
  }

  function Identity(n: nat): (refs: seq<int>)
    ensures |refs| == n && IsIdentity(refs) && RefsWithin(refs, n)
  {
    seq(n, k => k)
  }

  lemma MulMonotone(a: int, b: int, c: int)
    requires a >= 0 && b <= c
    ensures a * b <= a * c
  {
    assert a * c - a * b == a * (c - b);
  }

  /** In an n-by-n grid, every in-grid position has its slot in [0, n*n). */
  lemma SlotInRange(n: int, x: int, y: int)
    requires 0 <= x < n && 0 <= y < n
    ensures 0 <= Slot(n, x, y) < n * n
  {
    MulMonotone(n, 0, x);
    MulMonotone(n, x, n - 1);
    assert n * (n - 1) == n * n - n;
  }

  /** In an n-by-n grid, distinct in-grid positions have distinct slots. */
  lemma SlotInjective(n: int, x: int, y: int, x': int, y': int)
    requires 0 <= y < n && 0 <= y' < n
    requires Slot(n, x, y) == Slot(n, x', y')
    ensures x == x' && y == y'
  {
    assert n * (x - x') == y' - y;
    if x > x' {
      MulMonotone(n, 1, x - x');
    } else if x < x' {
      MulMonotone(n, 1, x' - x);
    }
  }

  /** In an n-by-n grid, every slot in [0, n*n) is the slot of exactly the
      position (s / n, s % n), which lies in the grid. */
  lemma SlotInverse(n: int, s: int)
    requires n > 0 && 0 <= s < n * n
    ensures 0 <= s / n < n && 0 <= s % n < n
    ensures Slot(n, s / n, s % n) == s
  {
    if s / n >= n {
      MulMonotone(n, n, s / n);
    }
  }

  /** In a square grid whose blob has n*n entries, an in-grid probe is never
      Entity.Null: it finds the entity in the probe's own slot. */
  lemma LookupInGrid(n: int, refs: seq<int>, x: int, y: int)
    requires |refs| == n * n
    requires 0 <= x < n && 0 <= y < n
    ensures 0 <= Slot(n, x, y) < |refs|
    ensures Lookup(n, refs, x, y) == Some(refs[Slot(n, x, y)])
  {
    SlotInRange(n, x, y);
  }

  /** Since only the flat slot is checked, moving a probe n columns to the right
      is the same as moving it one row down: the probe (x, n) finds the cell
      (x + 1, 0), and the probe (x, -1) finds the cell (x - 1, n - 1). */
  lemma LookupWrapsRows(n: int, refs: seq<int>, x: int, y: int)
    ensures Lookup(n, refs, x, y + n) == Lookup(n, refs, x + 1, y)
    ensures Lookup(n, refs, x, y - n) == Lookup(n, refs, x - 1, y)
  {
    assert Slot(n, x, y + n) == Slot(n, x + 1, y);
    assert Slot(n, x, y - n) == Slot(n, x - 1, y);
  }

  /** In a square grid, a probe in a row before the first one finds nothing
      unless it reaches column n or beyond, and a probe in a row after the last
      one finds nothing unless its column is negative. */
  lemma LookupOutsideRows(n: int, refs: seq<int>, x: int, y: int)
    requires n > 0 && |refs| == n * n
    ensures x < 0 && y < n ==> Lookup(n, refs, x, y) == None
    ensures x >= n && y >= 0 ==> Lookup(n, refs, x, y) == None
  {
    if x < 0 {
      MulMonotone(n, x, -1);
    }
    if x >= n {
      MulMonotone(n, n, x);
    }
  }
}
