/**
 * The escape-time recurrence z <- z^2 + c, started at z = 0 and stopped as soon as
 * the orbit leaves the disc |z|^2 < 4 or the iteration budget is spent.
 *
 * The floating-point arithmetic is not modelled: a `Dynamics` value supplies the
 * starting point, one step of the recurrence and the "still inside" test as
 * uninterpreted functions, so everything proved here holds for any arithmetic.
 */
module Escape {

  /** The numeric primitives the escape loop uses: `zero` is `Complex::new(0., 0.)`,
      `step(z, c)` is `z.square().add(&c)` and `inside(z)` is `z.magsq() < 4.`. */
  datatype Dynamics<!P> = Dynamics(zero: P, step: (P, P) -> P, inside: P -> bool)

  /** The k-th point of the orbit of `c`: z_0 = zero, z_(k+1) = step(z_k, c). */
  function Orbit<P>(d: Dynamics<P>, c: P, k: nat): P
  {
    if k == 0 then d.zero else d.step(Orbit(d, c, k - 1), c)
  }

  /** `n` is the escape time of `c` under a budget of `maxIters` iterations: every
      orbit point before index `n` is inside, and unless the budget ran out the
      point at index `n` is not. */
  ghost predicate IsEscapeTime<P>(d: Dynamics<P>, c: P, maxIters: nat, n: nat)
  {
    && n <= maxIters
    && (forall k :: 0 <= k < n ==> d.inside(Orbit(d, c, k)))
    && (n < maxIters ==> !d.inside(Orbit(d, c, n)))
  }

  /** At most one count is an escape time. */
  lemma EscapeTimeUnique<P>(d: Dynamics<P>, c: P, maxIters: nat, n: nat, m: nat)
    requires IsEscapeTime(d, c, maxIters, n) && IsEscapeTime(d, c, maxIters, m)
    ensures n == m
  {
  }

  /** The escape time, searched for from index `k` on, given that the orbit is
      inside at every index below `k`. */
  function EscapeTimeFrom<P>(d: Dynamics<P>, c: P, maxIters: nat, k: nat): (n: nat)
    requires k <= maxIters
    requires forall j :: 0 <= j < k ==> d.inside(Orbit(d, c, j))
    ensures k <= n
    ensures IsEscapeTime(d, c, maxIters, n)
    decreases maxIters - k
  {
    if k == maxIters || !d.inside(Orbit(d, c, k)) then k
    else EscapeTimeFrom(d, c, maxIters, k + 1)
  }

  /** The escape time of `c`: the number of iterations the escape loop performs. */
  function EscapeTime<P>(d: Dynamics<P>, c: P, maxIters: nat): (n: nat)
    ensures IsEscapeTime(d, c, maxIters, n)
  {
    EscapeTimeFrom(d, c, maxIters, 0)
  }

  /** The bounded escape loop: iterate from zero while the point is inside and
      fewer than `maxIters` steps were taken. Returns the count and the final point. */
  method EscapeCount<P>(d: Dynamics<P>, c: P, maxIters: nat) returns (iters: nat, z: P)
    ensures iters <= maxIters
    ensures z == Orbit(d, c, iters)
    ensures forall k :: 0 <= k < iters ==> d.inside(Orbit(d, c, k))
    ensures iters < maxIters ==> !d.inside(z)
    ensures iters == EscapeTime(d, c, maxIters)
  {
    iters := 0;
    z := d.zero;
    while iters < maxIters && d.inside(z)
      invariant iters <= maxIters
      invariant z == Orbit(d, c, iters)
      invariant forall k :: 0 <= k < iters ==> d.inside(Orbit(d, c, k))
    {
      z := d.step(z, c);
      iters := iters + 1;
    }
    EscapeTimeUnique(d, c, maxIters, iters, EscapeTime(d, c, maxIters));
  }
}
