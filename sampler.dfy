/**
 * The two candidate generators. Random draws are not modelled: a draw oracle gives
 * the k-th candidate a generator would draw, and `cullable` is the (floating point)
 * cardioid/bulb pre-filter, left uninterpreted.
 */
module Sampler {
  import opened Grid

  /** Maximum number of redraws after the first draw in `gen_sample_from_list`. */
  const RETRIES: nat := 5

  /** `gen_sample_from_list`: picks box `list[choice]` (the uniform choice among the
      boxes; an empty list makes the pick fail, so it is excluded), draws a candidate
      in it, and redraws while the candidate is cullable, at most RETRIES times.
      `used` is the number of candidates drawn; the result is the last one, which is
      cullable only when every one of the RETRIES + 1 draws was. */
  method GenSampleFromList<P>(list: seq<PixelBox>, choice: nat, draw: (PixelBox, nat) -> P,
                              cullable: P -> bool)
    returns (s: P, used: nat)
    requires choice < |list|
    ensures 1 <= used <= RETRIES + 1
    ensures s == draw(list[choice], used - 1)
    ensures forall k :: 0 <= k < used - 1 ==> cullable(draw(list[choice], k))
    ensures used < RETRIES + 1 ==> !cullable(s)
  {
    var box := list[choice];
    s := draw(box, 0);
    used := 1;
    var tries: nat := RETRIES;
    while cullable(s) && tries > 0
      invariant tries <= RETRIES && 1 <= used && used + tries == RETRIES + 1
      invariant s == draw(box, used - 1)
      invariant forall k :: 0 <= k < used - 1 ==> cullable(draw(box, k))
    {
      tries := tries - 1;
      s := draw(box, used);
      used := used + 1;
    }
  }

  /** `gen_sample`: draws candidates over the whole plane rectangle until one is not
      cullable, with no retry cap. The loop ends only if some draw is not cullable,
      which is therefore required. The result is the first such draw. */
  method GenSample<P>(draw: nat -> P, cullable: P -> bool) returns (s: P, used: nat)
    requires exists k :: !cullable(draw(k))
    ensures 1 <= used
    ensures s == draw(used - 1)
    ensures !cullable(s)
    ensures forall k :: 0 <= k < used - 1 ==> cullable(draw(k))
  {
    ghost var bound: nat :| !cullable(draw(bound));
    s := draw(0);
    used := 1;
    while cullable(s)
      invariant 1 <= used <= bound + 1
      invariant s == draw(used - 1)
      invariant forall k :: 0 <= k < used - 1 ==> cullable(draw(k))
      decreases bound + 1 - used
    {
      s := draw(used);
      used := used + 1;
    }
  }
}
