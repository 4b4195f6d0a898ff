/**
 * The `Complex` helpers, idealised over exact real numbers (not IEEE-754 doubles:
 * rounding, overflow to infinity and NaN are not modelled).
 *
 * `addi`, `subi` and `magsq` are pure and become functions on the value `Point`;
 * `square` and `add` overwrite the fields of the receiver and become methods of
 * the class `Complex`.
 */
module ComplexArith {
  import opened Escape

  /** The value of a complex number a + bi. */
  datatype Point = Point(re: real, im: real)

  /** Reference definitions of complex addition and multiplication. */
  function Plus(p: Point, q: Point): Point
  {
    Point(p.re + q.re, p.im + q.im)
  }

  function Times(p: Point, q: Point): Point
  {
    Point(p.re * q.re - p.im * q.im, p.re * q.im + p.im * q.re)
  }

  /** `addi`: a new point offset by (r, i); `subi` by the same deltas undoes it. */
  function AddI(p: Point, r: real, i: real): (q: Point)
    ensures SubI(q, r, i) == p
  {
    Point(p.re + r, p.im + i)
  }

  /** `subi`: a new point offset by (-r, -i). */
  function SubI(p: Point, r: real, i: real): (q: Point)
    ensures q.re + r == p.re && q.im + i == p.im
  {
    Point(p.re - r, p.im - i)
  }

  /** `magsq`: the squared modulus, never negative. */
  function MagSq(p: Point): (m: real)
    ensures 0.0 <= m
  {
    p.re * p.re + p.im * p.im
  }

  /** The squared modulus is multiplicative: |pq|^2 = |p|^2 |q|^2. */
  lemma MagSqTimes(p: Point, q: Point)
    ensures MagSq(Times(p, q)) == MagSq(p) * MagSq(q)
  {
  }

  /** A complex number whose fields are updated in place. */
  class Complex {
    var re: real
    var im: real

    /** `Complex::new`. */
    constructor (r: real, i: real)
      ensures re == r && im == i
    {
      re := r;
      im := i;
    }

    /** The current value of the number. */
    function Value(): Point
      reads this
    {
      Point(re, im)
    }

    /** `add`: this <- this + other. The two updates read disjoint fields, so the
        result is the same when `other` is this very object. */
    method Add(other: Complex)
      modifies this
      ensures Value() == Plus(old(Value()), old(other.Value()))
    {
      re := re + other.re;
      im := im + other.im;
    }

    /** `square`: this <- this * this, by (a + bi)^2 = (a^2 - b^2) + 2abi; the
        imaginary part is computed from the real part saved before it changed. */
    method Square()
      modifies this
      ensures Value() == Times(old(Value()), old(Value()))
    {
      var saved := re;
      re := re * re - im * im;
      im := 2.0 * im * saved;
    }
  }

  /** The escape-loop primitives over the reals: start at 0, step z <- z^2 + c,
      inside while |z|^2 < 4. */
  function RealDynamics(): Dynamics<Point>
  {
    Dynamics(Point(0.0, 0.0), (z, c) => Plus(Times(z, z), c), z => MagSq(z) < 4.0)
  }

  /** `z.square().add(&c)` applied `n` times to a fresh `z = 0` computes the n-th
      point of the Mandelbrot recurrence. */
  method IterateInPlace(c: Complex, n: nat) returns (zn: Point)
    ensures zn == Orbit(RealDynamics(), c.Value(), n)
  {
    var z := new Complex(0.0, 0.0);
    var k := 0;
    while k < n
      invariant k <= n
      invariant z.Value() == Orbit(RealDynamics(), c.Value(), k)
    {
      z.Square();
      z.Add(c);
      k := k + 1;
    }
    zn := z.Value();
  }

  /** The first orbit point after zero is c itself, so the first pixel a trajectory
      can record is the image of c, never the image of z = 0. */
  lemma FirstStepIsC(c: Point)
    ensures Orbit(RealDynamics(), c, 1) == c
  {
    var zero := Point(0.0, 0.0);
    assert Orbit(RealDynamics(), c, 0) == zero;
    assert Times(zero, zero) == zero;
    assert Orbit(RealDynamics(), c, 1) == Plus(Times(zero, zero), c);
  }
}
