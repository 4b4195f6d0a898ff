/**
 * The run as `main` performs it, without the image output: the importance list is
 * built once with the run's iteration window `[MAX_ITERS / 3, MAX_ITERS)`, then
 * every candidate is traced and settled against a fresh accumulator.
 */
module Render {
  import opened Canvas
  import opened Escape
  import opened Grid
  import opened Accumulate

  /** The list holds the box of every window with a qualifying probe and nothing
      else; the fresh accumulator ends holding exactly the hits `Outcome` commits
      from an empty vector, with `maxHits` the largest of them. */
  method Render<P>(d: Dynamics<P>, fromPixel: (nat, nat) -> P, toPixel: P -> Pixel, candidates: seq<P>)
    returns (list: seq<PixelBox>, acc: Accumulator)
    ensures forall i :: 0 <= i < WINDOWS ==>
      (BoxOf(i) in list <==> WindowQualifies(d, fromPixel, MIN_ITERS, MAX_ITERS, i))
    ensures forall box :: box in list ==> exists i :: 0 <= i < WINDOWS && BoxOf(i) == box
    ensures fresh(acc) && acc.Valid()
    ensures acc.hitSeq == Outcome(d, toPixel, candidates, MIN_ITERS, MAX_ITERS, []).1
    ensures forall x, y :: 0 <= x < WIDTH && 0 <= y < HEIGHT ==>
      acc.hitBuff[x, y] == Outcome(d, toPixel, candidates, MIN_ITERS, MAX_ITERS, []).0[Pixel(x, y)]
  {
    list := BuildImportanceList(d, fromPixel, MIN_ITERS, MAX_ITERS);
    acc := new Accumulator();
    acc.RunSamples(d, toPixel, candidates, MIN_ITERS, MAX_ITERS);
  }
}
