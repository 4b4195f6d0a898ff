/**
 * The image and its pixels: the fixed output resolution, the pixel coordinates
 * produced by `map_to_pixel` (two `u32`s) and the iteration bounds of the run.
 */
module Canvas {

  /** Output width and height in pixels (1000 x 1000). */
  const WIDTH: nat := 1000
  const HEIGHT: nat := 1000

  /** The iteration budget of the run and the lower end of the acceptance window
      (`max_iters / 3`, integer division). */
  const MAX_ITERS: nat := 1000
  const MIN_ITERS: nat := MAX_ITERS / 3

  type u32 = x: int | 0 <= x < 0x1_0000_0000

  /** A pixel as returned by `map_to_pixel`; it need not lie inside the image. */
  datatype Pixel = Pixel(x: u32, y: u32)

  /** The pixel lies on the canvas: the bounds test that decides whether a pixel is
      recorded in a trajectory. */
  predicate InImage(p: Pixel)
  {
    p.x < WIDTH && p.y < HEIGHT
  }

  /** An iteration count lies in the acceptance window `[minIters, maxIters)`. */
  predicate InWindow(iters: nat, minIters: nat, maxIters: nat)
  {
    minIters <= iters < maxIters
  }
}
