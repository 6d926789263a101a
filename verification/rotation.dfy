/**
 * The rotation rules of the image rotator, as functions of the accumulated
 * rotation (degrees) and of what one pointer gesture supplies.
 *
 * Free mode follows the vertical drag, 0.1 degree per pixel, clamped to
 * [-45, 45]. Line mode corrects, on release, by the angle that turns the drawn
 * line onto the nearest horizontal or vertical, with dead zones around the
 * diagonals and no clamp.
 */
module Rotation {

  /** Degrees of rotation per pixel of vertical drag in free mode. */
  const FreeSensitivity: real := 0.1
  /** Free mode keeps the rotation within [-FreeLimit, FreeLimit]. */
  const FreeLimit: real := 45.0
  /** A line-mode correction is always smaller than this in magnitude. */
  const SnapReach: real := 40.0

  /** The distance between two angles on the real line. */
  function Dist(x: real, y: real): real
  {
    if x < y then y - x else x - y
  }

  /** `r` is a point of [-FreeLimit, FreeLimit] nearest to `v`. */
  ghost predicate NearestWithinFreeLimit(r: real, v: real)
  {
    -FreeLimit <= r <= FreeLimit
    && forall y :: -FreeLimit <= y <= FreeLimit ==> Dist(r, v) <= Dist(y, v)
  }

  /**
   * One free-mode drag frame: the rotation moves by `deltaY * 0.1` and is then
   * clamped, so the result is the point of [-45, 45] nearest the moved value.
   */
  function FreeDrag(rotation: real, deltaY: real): (r: real)
    ensures -FreeLimit <= r <= FreeLimit
    ensures NearestWithinFreeLimit(r, rotation + deltaY * FreeSensitivity)
  {
    var moved := rotation + deltaY * FreeSensitivity;
    if moved < -FreeLimit then -FreeLimit
    else if moved > FreeLimit then FreeLimit
    else moved
  }

  /**
   * The undirected angle of a line: an angle in (-180, 0) is moved to the
   * opposite direction by adding 180, which names the same line.
   */
  function NormalizeAngle(raw: real): (a: real)
    ensures a == raw || a == raw + 180.0
    ensures -180.0 <= raw <= 180.0 ==> 0.0 <= a <= 180.0
  {
    if raw < 0.0 then raw + 180.0 else raw
  }

  /** The two bands around the diagonals where line mode does not snap. */
  predicate InDeadZone(a: real)
  {
    (40.0 <= a <= 50.0) || (130.0 <= a <= 140.0)
  }

  /** The horizontal and vertical directions a line can be snapped to. */
  predicate IsAxis(t: real)
  {
    t == 0.0 || t == 90.0 || t == 180.0
  }

  /**
   * The line-mode sector rule: the change of rotation for a line of undirected
   * angle `a`. Outside the dead zones it turns the line onto the axis nearest to
   * it; inside them it changes nothing.
   */
  function LineCorrection(a: real): (d: real)
    ensures InDeadZone(a) ==> d == 0.0
    ensures 0.0 <= a <= 180.0 && !InDeadZone(a) ==>
      IsAxis(a + d) && forall t :: IsAxis(t) ==> Dist(a + d, a) <= Dist(t, a)
    ensures 0.0 <= a <= 180.0 ==> -SnapReach < d < SnapReach
  {
    if a < 40.0 then -a
    else if a > 140.0 then 180.0 - a
    else if a > 50.0 && a < 130.0 then 90.0 - a
    else 0.0
  }

  /**
   * One line-mode release: `raw` is the angle, in degrees, of the vector from
   * the release point to the drag start. The rotation moves by less than 40
   * degrees and is not clamped.
   */
  function LineRelease(rotation: real, raw: real): (r: real)
    ensures -180.0 <= raw <= 180.0 ==> Dist(r, rotation) < SnapReach
    ensures -180.0 <= raw <= 180.0 && InDeadZone(NormalizeAngle(raw)) ==> r == rotation
  {
    rotation + LineCorrection(NormalizeAngle(raw))
  }

  /** The same line-mode gesture released `count` times in a row. */
  function RepeatLineRelease(rotation: real, raw: real, count: nat): real
    decreases count
  {
    if count == 0 then rotation else RepeatLineRelease(LineRelease(rotation, raw), raw, count - 1)
  }

  /** Repeated releases add up their corrections without any bound. */
  lemma {:induction false} LineReleasesAccumulate(rotation: real, raw: real, count: nat)
    ensures RepeatLineRelease(rotation, raw, count)
         == rotation + (count as real) * LineCorrection(NormalizeAngle(raw))
    decreases count
  {
    if count > 0 {
      LineReleasesAccumulate(LineRelease(rotation, raw), raw, count - 1);
    }
  }

  /** Five releases of a line at 10 degrees, starting from 0, give -50: beyond free mode's limit. */
  lemma FiveReleasesPassFreeLimit()
    ensures RepeatLineRelease(0.0, 10.0, 5) == -50.0
    ensures RepeatLineRelease(0.0, 10.0, 5) < -FreeLimit
  {
    LineReleasesAccumulate(0.0, 10.0, 5);
  }

  /** A free drag by nothing leaves the rotation as it is exactly when it is within the limits. */
  lemma {:induction false} FreeDragByNothing(rotation: real)
    ensures FreeDrag(rotation, 0.0) == rotation <==> -FreeLimit <= rotation <= FreeLimit
  {
  }

  /** Free drags are monotone: dragging further down never gives a smaller rotation. */
  lemma {:induction false} FreeDragMonotone(rotation: real, deltaY: real, deltaY': real)
    requires deltaY <= deltaY'
    ensures FreeDrag(rotation, deltaY) <= FreeDrag(rotation, deltaY')
  {
  }
}
