/**
 * The orbit tracer and hit accumulator of the sampling loop.
 *
 * For every candidate c the escape loop runs again, and after each step the new
 * orbit point is mapped to a pixel; in-image pixels are pushed onto the trajectory
 * vector, out-of-image ones are skipped without ending the loop. When the count lies
 * in the acceptance window and the vector is not empty, every element but the one
 * at index 0 is committed to the counter grid (`drain(1..)`), which leaves that
 * element in the vector for the next sample; otherwise the vector is cleared.
 */
module Accumulate {
  import opened Canvas
  import opened Escape

  /** The in-image pixels of the orbit points z_1 .. z_n, in orbit order. */
  function Trajectory<P>(d: Dynamics<P>, toPixel: P -> Pixel, c: P, n: nat): seq<Pixel>
  {
    if n == 0 then []
    else
      var p := toPixel(Orbit(d, c, n));
      Trajectory(d, toPixel, c, n - 1) + (if InImage(p) then [p] else [])
  }

  /** Every pixel of a trajectory lies in the image. */
  lemma {:induction false} TrajectoryInImage<P>(d: Dynamics<P>, toPixel: P -> Pixel, c: P, n: nat)
    ensures forall p :: p in Trajectory(d, toPixel, c, n) ==> InImage(p)
  {
    if n > 0 {
      TrajectoryInImage(d, toPixel, c, n - 1);
    }
  }

  /** A pixel is in the trajectory exactly when it is in the image and is the image
      of one of z_1 .. z_n; out-of-image points are skipped, nothing else is. */
  lemma {:induction false} TrajectoryMembers<P>(d: Dynamics<P>, toPixel: P -> Pixel, c: P, n: nat, p: Pixel)
    ensures p in Trajectory(d, toPixel, c, n) <==>
      InImage(p) && exists k :: 1 <= k <= n && toPixel(Orbit(d, c, k)) == p
  {
    if n > 0 {
      TrajectoryMembers(d, toPixel, c, n - 1, p);
      var last := toPixel(Orbit(d, c, n));
      var prefix := Trajectory(d, toPixel, c, n - 1);
      assert Trajectory(d, toPixel, c, n) == prefix + (if InImage(last) then [last] else []);
      if p in Trajectory(d, toPixel, c, n) && p !in prefix {
        assert p == last;
      }
      if InImage(p) && exists k :: 1 <= k <= n && toPixel(Orbit(d, c, k)) == p {
        var k :| 1 <= k <= n && toPixel(Orbit(d, c, k)) == p;
        if k < n {
          assert 1 <= k <= n - 1 && toPixel(Orbit(d, c, k)) == p;
          assert p in prefix;
        } else {
          assert p == last;
        }
        assert p in Trajectory(d, toPixel, c, n);
      }
    }
  }

  /** At most one pixel per iteration is recorded, and exactly one per iteration when
      the whole orbit stays in the image. */
  lemma {:induction false} TrajectoryLength<P>(d: Dynamics<P>, toPixel: P -> Pixel, c: P, n: nat)
    ensures |Trajectory(d, toPixel, c, n)| <= n
    ensures (forall k :: 1 <= k <= n ==> InImage(toPixel(Orbit(d, c, k)))) ==>
      |Trajectory(d, toPixel, c, n)| == n
  {
    if n > 0 {
      TrajectoryLength(d, toPixel, c, n - 1);
    }
  }

  /** The effect of the sampling loop on the trajectory vector, starting from vector
      `v`: the pixels committed to the grid over `cands` (as a multiset, since the
      grid only counts them) and the vector left at the end. A sample is accepted
      when its count lies in the window and the vector, including any element left
      over from the previous commit, is not empty; an accepted sample commits every
      vector element but the first and keeps that one, a rejected sample clears. */
  function Outcome<P>(d: Dynamics<P>, toPixel: P -> Pixel, cands: seq<P>,
                      minIters: nat, maxIters: nat, v: seq<Pixel>): (multiset<Pixel>, seq<Pixel>)
    decreases |cands|
  {
    if |cands| == 0 then (multiset{}, v)
    else
      var iters := EscapeTime(d, cands[0], maxIters);
      var w := v + Trajectory(d, toPixel, cands[0], iters);
      if InWindow(iters, minIters, maxIters) && |w| > 0 then
        var r := Outcome(d, toPixel, cands[1..], minIters, maxIters, [w[0]]);
        (multiset(w[1..]) + r.0, r.1)
      else
        Outcome(d, toPixel, cands[1..], minIters, maxIters, [])
  }

  /** Every pixel of every candidate's trajectory, once per occurrence. */
  function TrajectoryHits<P>(d: Dynamics<P>, toPixel: P -> Pixel, cands: seq<P>, maxIters: nat): multiset<Pixel>
    decreases |cands|
  {
    if |cands| == 0 then multiset{}
    else
      multiset(Trajectory(d, toPixel, cands[0], EscapeTime(d, cands[0], maxIters)))
        + TrajectoryHits(d, toPixel, cands[1..], maxIters)
  }

  /** Once a pixel `p` is left over in the vector, a run of accepted samples commits
      exactly their own trajectories, never `p`, and `p` is still the vector's only
      element at the end. */
  lemma {:induction false} LeftoverCarried<P>(d: Dynamics<P>, toPixel: P -> Pixel, cands: seq<P>,
                                              minIters: nat, maxIters: nat, p: Pixel)
    requires forall k :: 0 <= k < |cands| ==>
      InWindow(EscapeTime(d, cands[k], maxIters), minIters, maxIters)
    ensures Outcome(d, toPixel, cands, minIters, maxIters, [p])
      == (TrajectoryHits(d, toPixel, cands, maxIters), [p])
    decreases |cands|
  {
    if |cands| > 0 {
      var t := Trajectory(d, toPixel, cands[0], EscapeTime(d, cands[0], maxIters));
      var w := [p] + t;
      assert w[0] == p && w[1..] == t;
      forall k | 0 <= k < |cands[1..]|
        ensures InWindow(EscapeTime(d, cands[1..][k], maxIters), minIters, maxIters)
      {
        assert cands[1..][k] == cands[k + 1];
      }
      LeftoverCarried(d, toPixel, cands[1..], minIters, maxIters, p);
    }
  }

  /** From an empty vector, when every sample is accepted and the first one records
      a pixel: the first sample's first pixel is never committed and stays in the
      vector, while all later samples commit their whole trajectories. */
  lemma FirstPixelWithheld<P>(d: Dynamics<P>, toPixel: P -> Pixel, cands: seq<P>,
                              minIters: nat, maxIters: nat)
    requires |cands| > 0
    requires forall k :: 0 <= k < |cands| ==>
      InWindow(EscapeTime(d, cands[k], maxIters), minIters, maxIters)
    requires |Trajectory(d, toPixel, cands[0], EscapeTime(d, cands[0], maxIters))| > 0
    ensures var t := Trajectory(d, toPixel, cands[0], EscapeTime(d, cands[0], maxIters));
      Outcome(d, toPixel, cands, minIters, maxIters, [])
        == (multiset(t[1..]) + TrajectoryHits(d, toPixel, cands[1..], maxIters), [t[0]])
  {
    var t := Trajectory(d, toPixel, cands[0], EscapeTime(d, cands[0], maxIters));
    assert [] + t == t;
    forall k | 0 <= k < |cands[1..]|
      ensures InWindow(EscapeTime(d, cands[1..][k], maxIters), minIters, maxIters)
    {
      assert cands[1..][k] == cands[k + 1];
    }
    LeftoverCarried(d, toPixel, cands[1..], minIters, maxIters, t[0]);
  }

  /** The counter grid `hit_buff`, the trajectory vector `hit_seq` and the running
      maximum `max_hits`. The ghost `maxAt` names a cell holding the maximum. */
  class Accumulator {
    const hitBuff: array2<nat>
    var hitSeq: seq<Pixel>
    var maxHits: nat
    ghost var maxAt: Pixel

    /** The grid covers the image, the vector holds only in-image pixels, and
        `maxHits` is the largest counter: no cell exceeds it and `maxAt` attains it. */
    ghost predicate Valid()
      reads this, hitBuff
    {
      && hitBuff.Length0 == WIDTH && hitBuff.Length1 == HEIGHT
      && (forall p :: p in hitSeq ==> InImage(p))
      && InImage(maxAt) && hitBuff[maxAt.x, maxAt.y] == maxHits
      && (forall x, y :: 0 <= x < WIDTH && 0 <= y < HEIGHT ==> hitBuff[x, y] <= maxHits)
    }

    /** A zeroed grid, an empty vector and a zero maximum. */
    constructor ()
      ensures Valid() && fresh(hitBuff)
      ensures hitSeq == [] && maxHits == 0
      ensures forall x, y :: 0 <= x < WIDTH && 0 <= y < HEIGHT ==> hitBuff[x, y] == 0
    {
      hitBuff := new nat[WIDTH, HEIGHT]((x, y) => 0);
      hitSeq := [];
      maxHits := 0;
      maxAt := Pixel(0, 0);
    }

    /** Runs the escape loop for `c`, pushing the pixel of every new orbit point that
        lies in the image. The count is the escape time, whatever the pixels. */
    method Trace<P>(d: Dynamics<P>, toPixel: P -> Pixel, c: P, maxIters: nat) returns (iters: nat)
      requires Valid()
      modifies this`hitSeq
      ensures Valid()
      ensures iters == EscapeTime(d, c, maxIters)
      ensures hitSeq == old(hitSeq) + Trajectory(d, toPixel, c, iters)
    {
      var z := d.zero;
      iters := 0;
      while d.inside(z) && iters < maxIters
        invariant Valid()
        invariant iters <= maxIters
        invariant z == Orbit(d, c, iters)
        invariant forall k :: 0 <= k < iters ==> d.inside(Orbit(d, c, k))
        invariant hitSeq == old(hitSeq) + Trajectory(d, toPixel, c, iters)
      {
        z := d.step(z, c);
        var p := toPixel(z);
        iters := iters + 1;
        if p.x >= WIDTH || p.y >= HEIGHT {
          continue;
        }
        hitSeq := hitSeq + [toPixel(z)];
      }
      EscapeTimeUnique(d, c, maxIters, iters, EscapeTime(d, c, maxIters));
    }

    /** `drain(1..)`: adds one to the counter of every vector element after index 0,
        once per occurrence, raising `maxHits` whenever a counter passes it; no other
        cell changes and the vector keeps only its element at index 0. */
    method Commit()
      requires Valid() && |hitSeq| > 0
      modifies this, hitBuff
      ensures Valid()
      ensures forall x, y :: 0 <= x < WIDTH && 0 <= y < HEIGHT ==>
        hitBuff[x, y] == old(hitBuff[x, y]) + multiset(old(hitSeq)[1..])[Pixel(x, y)]
      ensures hitSeq == [old(hitSeq)[0]]
      ensures old(maxHits) <= maxHits
    {
      var s := hitSeq;
      var j := 1;
      while j < |s|
        invariant 1 <= j <= |s|
        invariant hitSeq == s
        invariant forall q :: q in s ==> InImage(q)
        invariant InImage(maxAt) && hitBuff[maxAt.x, maxAt.y] == maxHits
        invariant forall x, y :: 0 <= x < WIDTH && 0 <= y < HEIGHT ==> hitBuff[x, y] <= maxHits
        invariant old(maxHits) <= maxHits
        invariant forall x, y :: 0 <= x < WIDTH && 0 <= y < HEIGHT ==>
          hitBuff[x, y] == old(hitBuff[x, y]) + multiset(s[1..j])[Pixel(x, y)]
      {
        var p := s[j];
        assert p in s;
        var hits := hitBuff[p.x, p.y] + 1;
        if hits > maxHits {
          maxHits := hits;
          maxAt := p;
        }
        hitBuff[p.x, p.y] := hits;
        assert s[1..j + 1] == s[1..j] + [p];
        j := j + 1;
      }
      assert s[1..j] == s[1..];
      hitSeq := [s[0]];
    }

    /** The end of one sample: commit when the count lies in the acceptance window
        and the vector is not empty (the element left over from the previous commit
        counts), otherwise clear the vector and leave the grid and maximum alone. */
    method Settle(iters: nat, minIters: nat, maxIters: nat) returns (committed: bool)
      requires Valid()
      modifies this, hitBuff
      ensures Valid()
      ensures committed <==> InWindow(iters, minIters, maxIters) && |old(hitSeq)| > 0
      ensures committed ==>
        && (forall x, y :: 0 <= x < WIDTH && 0 <= y < HEIGHT ==>
              hitBuff[x, y] == old(hitBuff[x, y]) + multiset(old(hitSeq)[1..])[Pixel(x, y)])
        && hitSeq == [old(hitSeq)[0]]
        && old(maxHits) <= maxHits
      ensures !committed ==>
        && (forall x, y :: 0 <= x < WIDTH && 0 <= y < HEIGHT ==> hitBuff[x, y] == old(hitBuff[x, y]))
        && hitSeq == []
        && maxHits == old(maxHits)
    {
      if iters < maxIters && iters >= minIters && |hitSeq| > 0 {
        Commit();
        committed := true;
      } else {
        hitSeq := [];
        committed := false;
      }
    }

    /** The sampling loop over a sequence of candidates (the first from
        `gen_sample_from_list`, the rest from `gen_sample`): each candidate is traced
        and settled in turn. The grid gains exactly the pixels `Outcome` commits, the
        vector ends as `Outcome` leaves it, counters and `maxHits` never decrease, and
        `maxHits` remains the maximum over the grid. */
    method RunSamples<P>(d: Dynamics<P>, toPixel: P -> Pixel, candidates: seq<P>,
                         minIters: nat, maxIters: nat)
      requires Valid()
      modifies this, hitBuff
      ensures Valid()
      ensures hitSeq == Outcome(d, toPixel, candidates, minIters, maxIters, old(hitSeq)).1
      ensures forall x, y :: 0 <= x < WIDTH && 0 <= y < HEIGHT ==>
        hitBuff[x, y] == old(hitBuff[x, y])
          + Outcome(d, toPixel, candidates, minIters, maxIters, old(hitSeq)).0[Pixel(x, y)]
      ensures old(maxHits) <= maxHits
      ensures forall x, y :: 0 <= x < WIDTH && 0 <= y < HEIGHT ==> old(hitBuff[x, y]) <= hitBuff[x, y]
    {
      ghost var done: multiset<Pixel> := multiset{};
      var s := 0;
      while s < |candidates|
        invariant s <= |candidates|
        invariant Valid()
        invariant old(maxHits) <= maxHits
        invariant forall x, y :: 0 <= x < WIDTH && 0 <= y < HEIGHT ==>
          hitBuff[x, y] == old(hitBuff[x, y]) + done[Pixel(x, y)]
        invariant Outcome(d, toPixel, candidates, minIters, maxIters, old(hitSeq)).0
          == done + Outcome(d, toPixel, candidates[s..], minIters, maxIters, hitSeq).0
        invariant Outcome(d, toPixel, candidates, minIters, maxIters, old(hitSeq)).1
          == Outcome(d, toPixel, candidates[s..], minIters, maxIters, hitSeq).1
      {
        ghost var v := hitSeq;
        var iters := Trace(d, toPixel, candidates[s], maxIters);
        ghost var w := hitSeq;
        var committed := Settle(iters, minIters, maxIters);
        assert candidates[s..][0] == candidates[s];
        assert candidates[s..][1..] == candidates[s + 1..];
        if committed {
          done := done + multiset(w[1..]);
        }
        s := s + 1;
      }
    }
  }
}
