# Buddhabrot renderer: the discrete core, in Dafny

The renderer draws a Buddhabrot density image. It probes a coarse 100 x 100 grid of
plane points with the Mandelbrot escape loop and marks the cells whose escape time
lies in the acceptance window `[max_iters / 3, max_iters)`. It then slides a 2x2
window over the marked grid and keeps one box per window that holds a marked cell.
Next it draws candidate points and traces each orbit. The in-image pixels an orbit
visits go into a trajectory vector. When the orbit's escape time lies in the window,
that vector is committed to a 1000 x 1000 counter grid, and a running maximum of
the counters is kept for normalisation.

This project models that core with the floating-point numerics abstracted away:

- `escape.dfy` (module `Escape`) holds the escape loop and its specification. The
  complex arithmetic it needs enters as uninterpreted functions: the start point
  `0`, one step `z <- z^2 + c`, and the test `|z|^2 < 4`.
- `canvas.dfy` (module `Canvas`) holds the image size, pixels with `u32`
  coordinates, the in-image test and the acceptance window.
- `complex.dfy` (module `ComplexArith`) holds the `Complex` helpers over exact
  reals. This is an idealisation, not IEEE-754. `addi`, `subi` and `magsq` are
  pure functions on a value. `square` and `add` are in-place methods of a class.
- `grid.dfy` (module `Grid`) holds the grid marking (an in-place `array2`) and the
  window pass that builds the sample list. Sample boxes are kept in pixel
  coordinates.
- `sampler.dfy` (module `Sampler`) holds the bounded-retry and unbounded-retry
  candidate generators, over an abstract draw oracle and an abstract `cullable`.
- `accumulate.dfy` (module `Accumulate`) holds a class with the counter grid
  `hitBuff`, the trajectory vector `hitSeq` and the running maximum `maxHits`. It
  has methods for tracing one orbit, committing or discarding its trajectory, and
  running the sampling loop. `Outcome` is the reference definition of what the
  sampling loop commits and leaves in the vector.
- `render.dfy` (module `Render`) composes the two phases with the run's iteration
  window `[MAX_ITERS / 3, MAX_ITERS)`.

Where the code's behaviour is easy to misread, the model follows the code:

- Each sample-list box spans pixel `(row, col)` to pixel `(row + 1, col + 1)`: a
  one-pixel box, not the 2x2-cell footprint of its window.
- The pixel is taken after each step, so the image of `z = 0` is never recorded.
  Over the reals `z_1 = c` (`ComplexArith.FirstStepIsC`), so the first pixel a
  trajectory can record is the image of `c`. It is recorded only when it lies in
  the image, which fails for `c.re > 0.5`, a range the plane bounds allow.
- `drain(1..)` commits every vector element except the one at index 0 and leaves
  that element in the vector. After one commit, the next sample's vector starts
  with that leftover pixel. That sample's own pixels are then all committed, and
  the leftover pixel never is (`Accumulate.LeftoverCarried`,
  `Accumulate.FirstPixelWithheld`). A clear after a rejected sample restarts the
  pattern. The leftover element also makes the "non-empty vector" test pass for a
  sample whose own trajectory is empty.
- The cardioid/bulb filter tests `|c - 1|^2 < 0.125`, not the period-2 bulb
  around -1. The filter is not modelled; it is a parameter.

## Model

| member | source | states |
|---|---|---|
| `Escape.EscapeTimeFrom` | src/main.rs:168-171 | continuing the loop from an index below which every orbit point was inside yields a count that is the escape time: at most the budget, every earlier point inside, and the point reached outside unless the budget ran out |
| `Escape.EscapeTime` | src/main.rs:165-171 | the escape time of `c` exists and satisfies that characterisation |
| `Escape.EscapeTimeUnique` | src/main.rs:168-171 | two counts that both satisfy the characterisation are equal, so the escape time is determined by the orbit |
| `Escape.EscapeCount` | src/main.rs:165-171 | the loop terminates with `0 <= iters <= max_iters`; every orbit point before `iters` was inside; if `iters < max_iters` the final `z` is outside; `z` is the `iters`-th orbit point; `iters` is the escape time |
| `ComplexArith.AddI` | src/main.rs:30-35 | `addi(r, i)` followed by `subi(r, i)` gives back the original point |
| `ComplexArith.SubI` | src/main.rs:37-42 | `subi(r, i)` offsets by `(-r, -i)`: adding the deltas back gives the original components |
| `ComplexArith.MagSq` | src/main.rs:52-54 | the squared magnitude is never negative |
| `ComplexArith.MagSqTimes` | src/main.rs:44-54 | the squared magnitude of a product is the product of the squared magnitudes |
| `ComplexArith.Complex.constructor` | src/main.rs:17-22 | `Complex::new(r, i)` holds exactly `(r, i)` |
| `ComplexArith.Complex.Add` | src/main.rs:24-28 | after `add`, the receiver is the complex sum of its old value and the argument's old value, also when both are the same object |
| `ComplexArith.Complex.Square` | src/main.rs:44-50 | after `square`, the receiver is the complex product of its old value with itself; the identity of the comment at line 45 holds because the imaginary part uses the saved real part |
| `ComplexArith.IterateInPlace` | src/main.rs:166-170 | `z.square().add(&c)` applied `n` times to `z = 0` yields the `n`-th point of the Mandelbrot recurrence |
| `ComplexArith.FirstStepIsC` | src/main.rs:205-213 | the first orbit point after `0` is `c`, so the first pixel a trajectory can record is the image of `c` |
| `Grid.MarkGrid` | src/main.rs:156-177 | the fresh 100 x 100 grid ends with cell `(x, y)` equal to 1 exactly when the escape time of the probe at pixel `(x * 10, y * 10)` lies in `[min_iters, max_iters)`, and 0 otherwise |
| `Grid.BoxOf` | src/main.rs:183-188 | the box of window `i` has both corners inside the image, its upper corner strictly above its lower corner on both axes, and its lower corner on the cell lattice (a multiple of the cell size) |
| `Grid.BuildSampleList` | src/main.rs:181-191 | the window pass returns, in window order, the box of every window whose sum is positive and nothing else |
| `Grid.SampleListBound` | src/main.rs:182-191 | after `n` windows the list has at most `n` boxes, so never more than `(GRID_RES - 1)^2` |
| `Grid.SampleListMembers` | src/main.rs:182-191 | a box is in the list if and only if it is the box of a visited window with a positive sum |
| `Grid.BoxOfOrdered` | src/main.rs:182-188 | a later window has a strictly later box (by row, then column), so distinct windows give distinct boxes |
| `Grid.SampleListOrdered` | src/main.rs:182-191 | the list is strictly increasing in box order: it follows the window enumeration and has no repeated box |
| `Grid.SampleListAllMarked` | src/main.rs:182-191 | a grid whose every cell is marked yields exactly one box per window, `(GRID_RES - 1)^2` in all |
| `Grid.SampleListNoneMarked` | src/main.rs:182-191 | a grid with no marked cell yields an empty list |
| `Grid.SampleListHasWindow` | src/main.rs:182-191 | the box of window `i` is in the list if and only if that window's sum is positive; no other window produces the same box |
| `Grid.MarkedWindow` | src/main.rs:163-186 | on a grid marked by the probing pass, a window's sum is positive if and only if one of its four probes escapes within `[min_iters, max_iters)` |
| `Grid.ListQualifies` | src/main.rs:163-191 | for a marked grid, the box of window `i` is in the list if and only if one of the window's probes qualifies, and every box in the list is the box of some window |
| `Grid.ListExtremes` | src/main.rs:163-191 | for a marked grid, one box per window when every probe qualifies and an empty list when none does |
| `Grid.BuildImportanceList` | src/main.rs:156-191 | marking followed by the window pass returns the box of window `i` if and only if one of its four probes escapes within the window, nothing else, in window order without repetitions; at most `(GRID_RES - 1)^2` boxes, exactly that many when every probe qualifies, none when no probe qualifies |
| `Sampler.GenSampleFromList` | src/main.rs:108-117 | draws at most 6 candidates from the chosen box; every draw before the last was cullable; the result is the last draw; it is non-cullable whenever fewer than 6 were drawn |
| `Sampler.GenSample` | src/main.rs:100-106 | returns the first non-cullable draw: the result is not cullable and every earlier draw was |
| `Accumulate.TrajectoryInImage` | src/main.rs:207-213 | every pixel of a trajectory satisfies `x < WIDTH` and `y < HEIGHT` |
| `Accumulate.TrajectoryMembers` | src/main.rs:205-214 | a pixel is recorded if and only if it is in the image and is the image of one of the orbit points `z_1 .. z_n`; only out-of-image pixels are skipped |
| `Accumulate.TrajectoryLength` | src/main.rs:205-214 | at most one pixel is recorded per iteration, and exactly one per iteration when the whole orbit stays in the image |
| `Accumulate.Accumulator.constructor` | src/main.rs:151-158 | the counter grid starts all zero, the vector empty and the maximum 0, so the maximum invariant holds from the start |
| `Accumulate.Accumulator.Trace` | src/main.rs:202-214 | the count is the escape time of `c`, unaffected by skipped pixels; the vector gains exactly the trajectory pixels in orbit order; the maximum invariant is kept |
| `Accumulate.Accumulator.Commit` | src/main.rs:216-223 | each cell grows by the number of occurrences of its pixel at vector index 1 or later, so no other cell changes; the vector then holds only its former index-0 element; `maxHits` does not decrease and is still the maximum over all cells |
| `Accumulate.Accumulator.Settle` | src/main.rs:216-226 | commits exactly when the count is in `[min_iters, max_iters)` and the vector is not empty, with the effect of `Commit`; otherwise the grid and `maxHits` are unchanged and the vector is empty |
| `Accumulate.Accumulator.RunSamples` | src/main.rs:201-233 | over any sequence of candidates, each cell grows by exactly the number of times `Outcome` commits its pixel and the vector ends as `Outcome` leaves it; counters and `maxHits` never decrease, and `maxHits` stays equal to the maximum over all cells |
| `Accumulate.LeftoverCarried` | src/main.rs:213-223 | once a pixel is left over at index 0, a run of accepted samples commits exactly their own trajectories and never that pixel, which is still the vector's only element at the end |
| `Accumulate.FirstPixelWithheld` | src/main.rs:213-223 | from an empty vector, when every sample is accepted and the first records a pixel, the first sample's first pixel is withheld and stays in the vector while every later sample's whole trajectory is committed |
| `Render.Render` | src/main.rs:145-233 | with `min_iters = max_iters / 3`, the list holds exactly the boxes of windows with a qualifying probe, and a fresh accumulator ends with the counters and vector `Outcome` gives from an empty vector, with `maxHits` their maximum |

## Left out

- Floating-point arithmetic. One escape step, the `magsq() < 4.` test,
  `map_to_pixel`, `from_pixel`, `pixel_to_plane` and `cullable` are parameters of
  the model. IEEE-754 rounding, NaN and infinities cannot be reasoned about
  faithfully here. `ComplexArith` uses exact reals instead.
- `map_to_pixel` saturates negative coordinates to 0 (src/main.rs:66-67). Orbit
  points left of or below the image therefore land on column or row 0 instead of
  being skipped. The model only requires the mapping to return `u32` pixels.
- The geometry of `cullable` (src/main.rs:56-63) uses `sqrt` and floats. It is an
  abstract predicate in the samplers.
- Random numbers. `choose` is a given index into the sample list. The candidate
  draws come from a draw oracle. The sampling loop's candidates are a given
  sequence: the first comes from `gen_sample_from_list` and the rest from
  `gen_sample`.
- Sampler.GenSampleFromList: requires a valid choice index. `choose(...).unwrap()`
  panics on an empty list, and the model does not represent that panic.
- Sampler.GenSample: requires that some draw is not cullable. Without such a draw
  the source loops forever.
- Accumulate.Accumulator.Commit: counters and `maxHits` are unbounded naturals. The
  `u32` increment at src/main.rs:218 could in principle overflow, and that is not
  modelled.
- `mutate` and `mutate_from_list` (src/main.rs:82-98): float perturbations chosen
  by a random comparison, never called.
- `hits_to_col_sqrt` and `hits_to_col_lin` (src/main.rs:120-126): `powf` and float
  division. With `max = 0` they divide by zero and rely on saturating casts.
- The image buffer, pixel writing and file saving (src/main.rs:154, 237-246),
  progress printing and timing. These are I/O.
- Render.Render: takes its candidates as a given sequence of any length instead of
  the 20,000,000 samples drawn by `gen_sample_from_list` and `gen_sample`. The
  draws are random, and the first one depends on a random choice from the list.
