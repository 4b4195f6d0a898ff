/**
 * The importance grid built once before sampling.
 *
 * First every cell of a GRID_RES x GRID_RES grid of counters is probed: the escape
 * loop runs on the plane point of the cell's corner pixel, and the cell is set to 1
 * when the count lies in the acceptance window (it stays 0 otherwise). Then a 2x2
 * window slides over the grid with stride 1; for every window holding a marked cell
 * one box is appended to the sample list.
 *
 * Boxes are kept in pixel coordinates: the plane conversion (`pixel_to_plane`) is
 * floating point and is applied to both corners unchanged.
 */
module Grid {
  import opened Canvas
  import opened Escape

  /** Cells per side of the coarse grid, and the pixel size of one cell
      (1000 / 100 = 10 in both directions, exactly). */
  const GRID_RES: nat := 100
  const GRID_CELL_WIDTH: nat := WIDTH / GRID_RES
  const GRID_CELL_HEIGHT: nat := HEIGHT / GRID_RES

  /** Window origins per grid row, and the number of 2x2 windows. */
  const WINDOW_SPAN: nat := GRID_RES - 1
  const WINDOWS: nat := WINDOW_SPAN * WINDOW_SPAN

  /** One entry of the sample list, `(lx, ux, ly, uy)`, in pixel coordinates:
      the lower corner is pixel (lx, ly) and the upper corner pixel (ux, uy). */
  datatype PixelBox = PixelBox(lx: nat, ux: nat, ly: nat, uy: nat)

  predicate IsGrid(g: array2<nat>)
  {
    g.Length0 == GRID_RES && g.Length1 == GRID_RES
  }

  /** The plane point probed for cell (x, y): the image of its corner pixel. */
  function Probe<P>(fromPixel: (nat, nat) -> P, x: nat, y: nat): P
  {
    fromPixel(x * GRID_CELL_WIDTH, y * GRID_CELL_HEIGHT)
  }

  /** The mark a cell receives for a probe that ran `iters` iterations. */
  function Mark(iters: nat, minIters: nat, maxIters: nat): nat
  {
    if InWindow(iters, minIters, maxIters) then 1 else 0
  }

  /** Allocates the zeroed grid and marks, in row-major order, every cell whose
      probe escapes within the acceptance window. */
  method MarkGrid<P>(d: Dynamics<P>, fromPixel: (nat, nat) -> P, minIters: nat, maxIters: nat)
    returns (grid: array2<nat>)
    ensures fresh(grid) && IsGrid(grid)
    ensures forall x, y :: 0 <= x < GRID_RES && 0 <= y < GRID_RES ==>
      grid[x, y] == Mark(EscapeTime(d, Probe(fromPixel, x, y), maxIters), minIters, maxIters)
  {
    grid := new nat[GRID_RES, GRID_RES]((x, y) => 0);
    var x := 0;
    while x < GRID_RES
      invariant x <= GRID_RES
      invariant forall i, j :: 0 <= i < x && 0 <= j < GRID_RES ==>
        grid[i, j] == Mark(EscapeTime(d, Probe(fromPixel, i, j), maxIters), minIters, maxIters)
      invariant forall i, j :: x <= i < GRID_RES && 0 <= j < GRID_RES ==> grid[i, j] == 0
    {
      var y := 0;
      while y < GRID_RES
        invariant y <= GRID_RES
        invariant forall i, j :: 0 <= i < x && 0 <= j < GRID_RES ==>
          grid[i, j] == Mark(EscapeTime(d, Probe(fromPixel, i, j), maxIters), minIters, maxIters)
        invariant forall j :: 0 <= j < y ==>
          grid[x, j] == Mark(EscapeTime(d, Probe(fromPixel, x, j), maxIters), minIters, maxIters)
        invariant forall j :: y <= j < GRID_RES ==> grid[x, j] == 0
        invariant forall i, j :: x < i < GRID_RES && 0 <= j < GRID_RES ==> grid[i, j] == 0
      {
        var iters, _ := EscapeCount(d, Probe(fromPixel, x, y), maxIters);
        if iters < maxIters && iters >= minIters {
          grid[x, y] := 1;
        }
        y := y + 1;
      }
      x := x + 1;
    }
  }

  /** The sum of the 2x2 window with flat index `i`; windows are enumerated row by
      row, so window i has its origin at cell (i / WINDOW_SPAN, i % WINDOW_SPAN). */
  function WindowSum(g: array2<nat>, i: nat): nat
    reads g
    requires IsGrid(g) && i < WINDOWS
  {
    var a, b := i / WINDOW_SPAN, i % WINDOW_SPAN;
    g[a, b] + g[a, b + 1] + g[a + 1, b] + g[a + 1, b + 1]
  }

  /** The box appended for window `i`: lower corner (row, col) with
      row = i / (GRID_RES - 1) * GRID_CELL_HEIGHT and
      col = i % (GRID_RES - 1) * GRID_CELL_WIDTH, upper corner (row + 1, col + 1).
      Both corners are pixels of the image. */
  function BoxOf(i: nat): (r: PixelBox)
    requires i < WINDOWS
    ensures r.lx < r.ux < WIDTH && r.ly < r.uy < HEIGHT
    ensures r.lx % GRID_CELL_HEIGHT == 0 && r.ly % GRID_CELL_WIDTH == 0
  {
    var row := i / WINDOW_SPAN * GRID_CELL_HEIGHT;
    var col := i % WINDOW_SPAN * GRID_CELL_WIDTH;
    PixelBox(row, row + 1, col, col + 1)
  }

  /** The sample list after the first `n` windows have been visited. */
  function SampleListUpTo(g: array2<nat>, n: nat): seq<PixelBox>
    reads g
    requires IsGrid(g) && n <= WINDOWS
  {
    if n == 0 then []
    else SampleListUpTo(g, n - 1) + (if WindowSum(g, n - 1) > 0 then [BoxOf(n - 1)] else [])
  }

  function SampleList(g: array2<nat>): seq<PixelBox>
    reads g
    requires IsGrid(g)
  {
    SampleListUpTo(g, WINDOWS)
  }

  /** The window pass: visits every window in order and appends the box of each
      window whose sum is positive. */
  method BuildSampleList(grid: array2<nat>) returns (list: seq<PixelBox>)
    requires IsGrid(grid)
    ensures list == SampleList(grid)
  {
    list := [];
    var i := 0;
    while i < WINDOWS
      invariant i <= WINDOWS
      invariant list == SampleListUpTo(grid, i)
    {
      var a, b := i / WINDOW_SPAN, i % WINDOW_SPAN;
      var sum := grid[a, b] + grid[a, b + 1] + grid[a + 1, b] + grid[a + 1, b + 1];
      if sum > 0 {
        var row := i / WINDOW_SPAN * GRID_CELL_HEIGHT;
        var col := i % WINDOW_SPAN * GRID_CELL_WIDTH;
        list := list + [PixelBox(row, row + 1, col, col + 1)];
      }
      i := i + 1;
    }
  }

  /** The list holds at most one box per window visited. */
  lemma {:induction false} SampleListBound(g: array2<nat>, n: nat)
    requires IsGrid(g) && n <= WINDOWS
    ensures |SampleListUpTo(g, n)| <= n
  {
    if n > 0 {
      SampleListBound(g, n - 1);
    }
  }

  /** A box is in the list exactly when it is the box of a visited window with a
      positive sum. */
  lemma {:induction false} SampleListMembers(g: array2<nat>, n: nat, box: PixelBox)
    requires IsGrid(g) && n <= WINDOWS
    ensures box in SampleListUpTo(g, n) <==>
      exists i :: 0 <= i < n && WindowSum(g, i) > 0 && BoxOf(i) == box
  {
    if n > 0 {
      SampleListMembers(g, n - 1, box);
    }
  }

  /** Box order: by lower-corner row, then by lower-corner column. */
  predicate Before(p: PixelBox, q: PixelBox)
  {
    p.lx < q.lx || (p.lx == q.lx && p.ly < q.ly)
  }

  /** Window enumeration order is strictly increasing box order, so distinct
      windows give distinct boxes. */
  lemma BoxOfOrdered(i: nat, j: nat)
    requires i < j < WINDOWS
    ensures Before(BoxOf(i), BoxOf(j))
  {
    var ai, bi := i / WINDOW_SPAN, i % WINDOW_SPAN;
    var aj, bj := j / WINDOW_SPAN, j % WINDOW_SPAN;
    assert i == ai * WINDOW_SPAN + bi && j == aj * WINDOW_SPAN + bj;
    assert ai <= aj;
    if ai == aj {
      assert bi < bj;
    }
  }

  /** The list is in window-enumeration order without repetitions. */
  lemma {:induction false} SampleListOrdered(g: array2<nat>, n: nat)
    requires IsGrid(g) && n <= WINDOWS
    ensures forall j, k :: 0 <= j < k < |SampleListUpTo(g, n)| ==>
      Before(SampleListUpTo(g, n)[j], SampleListUpTo(g, n)[k])
  {
    if n > 0 {
      SampleListOrdered(g, n - 1);
      var prefix := SampleListUpTo(g, n - 1);
      if WindowSum(g, n - 1) > 0 {
        forall j | 0 <= j < |prefix|
          ensures Before(prefix[j], BoxOf(n - 1))
        {
          SampleListMembers(g, n - 1, prefix[j]);
          var i :| 0 <= i < n - 1 && WindowSum(g, i) > 0 && BoxOf(i) == prefix[j];
          BoxOfOrdered(i, n - 1);
        }
      }
    }
  }

  /** A grid whose every cell is marked yields one box per window. */
  lemma {:induction false} SampleListAllMarked(g: array2<nat>, n: nat)
    requires IsGrid(g) && n <= WINDOWS
    requires forall x, y :: 0 <= x < GRID_RES && 0 <= y < GRID_RES ==> g[x, y] > 0
    ensures |SampleListUpTo(g, n)| == n
  {
    if n > 0 {
      SampleListAllMarked(g, n - 1);
      assert WindowSum(g, n - 1) > 0;
    }
  }

  /** A grid with no marked cell yields an empty list. */
  lemma {:induction false} SampleListNoneMarked(g: array2<nat>, n: nat)
    requires IsGrid(g) && n <= WINDOWS
    requires forall x, y :: 0 <= x < GRID_RES && 0 <= y < GRID_RES ==> g[x, y] == 0
    ensures SampleListUpTo(g, n) == []
  {
    if n > 0 {
      SampleListNoneMarked(g, n - 1);
      assert WindowSum(g, n - 1) == 0;
    }
  }

  /** The box of window `i` is in the list exactly when that window's sum is
      positive: distinct windows give distinct boxes, so no other window can put
      it there. */
  lemma SampleListHasWindow(g: array2<nat>, i: nat)
    requires IsGrid(g) && i < WINDOWS
    ensures BoxOf(i) in SampleList(g) <==> WindowSum(g, i) > 0
  {
    SampleListMembers(g, WINDOWS, BoxOf(i));
    if BoxOf(i) in SampleList(g) {
      var j :| 0 <= j < WINDOWS && WindowSum(g, j) > 0 && BoxOf(j) == BoxOf(i);
      if j < i {
        BoxOfOrdered(j, i);
      } else if i < j {
        BoxOfOrdered(i, j);
      }
    }
  }

  /** The probe of cell (x, y) escapes within the acceptance window. */
  predicate ProbeQualifies<P>(d: Dynamics<P>, fromPixel: (nat, nat) -> P, minIters: nat, maxIters: nat,
                              x: nat, y: nat)
  {
    InWindow(EscapeTime(d, Probe(fromPixel, x, y), maxIters), minIters, maxIters)
  }

  /** One of the four cells of window `i` has a qualifying probe. */
  predicate WindowQualifies<P>(d: Dynamics<P>, fromPixel: (nat, nat) -> P, minIters: nat, maxIters: nat,
                               i: nat)
  {
    var a, b := i / WINDOW_SPAN, i % WINDOW_SPAN;
    || ProbeQualifies(d, fromPixel, minIters, maxIters, a, b)
    || ProbeQualifies(d, fromPixel, minIters, maxIters, a, b + 1)
    || ProbeQualifies(d, fromPixel, minIters, maxIters, a + 1, b)
    || ProbeQualifies(d, fromPixel, minIters, maxIters, a + 1, b + 1)
  }

  /** On a grid marked by `MarkGrid`, a window's sum is positive exactly when one
      of its four probes qualifies. */
  lemma MarkedWindow<P>(g: array2<nat>, d: Dynamics<P>, fromPixel: (nat, nat) -> P,
                        minIters: nat, maxIters: nat, i: nat)
    requires IsGrid(g) && i < WINDOWS
    requires MarkedBy(g, d, fromPixel, minIters, maxIters)
    ensures WindowSum(g, i) > 0 <==> WindowQualifies(d, fromPixel, minIters, maxIters, i)
  {
    var a, b := i / WINDOW_SPAN, i % WINDOW_SPAN;
    assert a + 1 < GRID_RES && b + 1 < GRID_RES;
    assert g[a, b] == if ProbeQualifies(d, fromPixel, minIters, maxIters, a, b) then 1 else 0;
    assert g[a, b + 1] == if ProbeQualifies(d, fromPixel, minIters, maxIters, a, b + 1) then 1 else 0;
    assert g[a + 1, b] == if ProbeQualifies(d, fromPixel, minIters, maxIters, a + 1, b) then 1 else 0;
    assert g[a + 1, b + 1] == if ProbeQualifies(d, fromPixel, minIters, maxIters, a + 1, b + 1) then 1 else 0;
  }

  /** The cells of `g` are the marks `MarkGrid` gives them. */
  ghost predicate MarkedBy<P>(g: array2<nat>, d: Dynamics<P>, fromPixel: (nat, nat) -> P,
                              minIters: nat, maxIters: nat)
    reads g
    requires IsGrid(g)
  {
    forall x, y :: 0 <= x < GRID_RES && 0 <= y < GRID_RES ==>
      g[x, y] == Mark(EscapeTime(d, Probe(fromPixel, x, y), maxIters), minIters, maxIters)
  }

  /** Both passes together, as run once before sampling. The list holds the box of
      window `i` exactly when one of the window's four probes escapes within the
      acceptance window, holds nothing else, and is in window order without
      repetitions; so it has at most one box per window, one per window when every
      probe qualifies, and none when no probe does. */
  method BuildImportanceList<P>(d: Dynamics<P>, fromPixel: (nat, nat) -> P, minIters: nat, maxIters: nat)
    returns (list: seq<PixelBox>)
    ensures forall i :: 0 <= i < WINDOWS ==>
      (BoxOf(i) in list <==> WindowQualifies(d, fromPixel, minIters, maxIters, i))
    ensures forall box :: box in list ==> exists i :: 0 <= i < WINDOWS && BoxOf(i) == box
    ensures forall j, k :: 0 <= j < k < |list| ==> Before(list[j], list[k])
    ensures |list| <= WINDOWS
    ensures (forall x, y :: 0 <= x < GRID_RES && 0 <= y < GRID_RES ==>
               ProbeQualifies(d, fromPixel, minIters, maxIters, x, y))
            ==> |list| == WINDOWS
    ensures (forall x, y :: 0 <= x < GRID_RES && 0 <= y < GRID_RES ==>
               !ProbeQualifies(d, fromPixel, minIters, maxIters, x, y))
            ==> list == []
  {
    var grid := MarkGrid(d, fromPixel, minIters, maxIters);
    list := BuildSampleList(grid);
    assert MarkedBy(grid, d, fromPixel, minIters, maxIters);
    SampleListBound(grid, WINDOWS);
    SampleListOrdered(grid, WINDOWS);
    ListQualifies(grid, d, fromPixel, minIters, maxIters);
    ListExtremes(grid, d, fromPixel, minIters, maxIters);
  }

  /** Membership in the list of a marked grid, in terms of the probes. */
  lemma ListQualifies<P>(g: array2<nat>, d: Dynamics<P>, fromPixel: (nat, nat) -> P,
                         minIters: nat, maxIters: nat)
    requires IsGrid(g) && MarkedBy(g, d, fromPixel, minIters, maxIters)
    ensures forall i :: 0 <= i < WINDOWS ==>
      (BoxOf(i) in SampleList(g) <==> WindowQualifies(d, fromPixel, minIters, maxIters, i))
    ensures forall box :: box in SampleList(g) ==> exists i :: 0 <= i < WINDOWS && BoxOf(i) == box
  {
    forall i | 0 <= i < WINDOWS
      ensures BoxOf(i) in SampleList(g) <==> WindowQualifies(d, fromPixel, minIters, maxIters, i)
    {
      SampleListHasWindow(g, i);
      MarkedWindow(g, d, fromPixel, minIters, maxIters, i);
    }
    forall box | box in SampleList(g)
      ensures exists i :: 0 <= i < WINDOWS && BoxOf(i) == box
    {
      SampleListMembers(g, WINDOWS, box);
    }
  }

  /** The list of a marked grid when every probe, or no probe, qualifies. */
  lemma ListExtremes<P>(g: array2<nat>, d: Dynamics<P>, fromPixel: (nat, nat) -> P,
                        minIters: nat, maxIters: nat)
    requires IsGrid(g) && MarkedBy(g, d, fromPixel, minIters, maxIters)
    ensures (forall x, y :: 0 <= x < GRID_RES && 0 <= y < GRID_RES ==>
               ProbeQualifies(d, fromPixel, minIters, maxIters, x, y))
            ==> |SampleList(g)| == WINDOWS
    ensures (forall x, y :: 0 <= x < GRID_RES && 0 <= y < GRID_RES ==>
               !ProbeQualifies(d, fromPixel, minIters, maxIters, x, y))
            ==> SampleList(g) == []
  {
    if forall x, y :: 0 <= x < GRID_RES && 0 <= y < GRID_RES ==>
         ProbeQualifies(d, fromPixel, minIters, maxIters, x, y)
    {
      forall x, y | 0 <= x < GRID_RES && 0 <= y < GRID_RES
        ensures g[x, y] > 0
      {
        assert ProbeQualifies(d, fromPixel, minIters, maxIters, x, y);
      }
      SampleListAllMarked(g, WINDOWS);
    }
    if forall x, y :: 0 <= x < GRID_RES && 0 <= y < GRID_RES ==>
         !ProbeQualifies(d, fromPixel, minIters, maxIters, x, y)
    {
      forall x, y | 0 <= x < GRID_RES && 0 <= y < GRID_RES
        ensures g[x, y] == 0
      {
        assert !ProbeQualifies(d, fromPixel, minIters, maxIters, x, y);
      }
      SampleListNoneMarked(g, WINDOWS);
    }
  }
}
