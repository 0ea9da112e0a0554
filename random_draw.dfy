/** What a `Math.random()` call can return, shared by every page that draws one. */
module RandomDraw {
  /** A draw lies in [0, 1). */
  predicate IsUnit(r: real)
  {
    0.0 <= r < 1.0
  }
}
