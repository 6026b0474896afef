/**
 * The motion of one animated tile: a ten-second tween whose value `val`
 * runs from 0 to 1 moves the tile from a random spin at height 30 back to
 * its rest pose.  Also the random start spin and the random delays.
 */
module TileAnimation {
  import opened TileGrid

  /** Height every animation starts from. */
  const LaunchHeight: real := 30.0

  /** `Math.PI` as a double. */
  const Pi: real := 3.141592653589793

  /** Upper bound (exclusive) of both random delays, in milliseconds. */
  const DelaySpan: real := 10000.0

  /** three.js `MathUtils.lerp(x, y, t)`. */
  function Lerp(x: real, y: real, t: real): real
  {
    (1.0 - t) * x + t * y
  }

  /** three.js `Vector3.lerpVectors(a, b, t)`. */
  function LerpVectors(a: Vec3, b: Vec3, t: real): Vec3
  {
    Vec3(a.x + (b.x - a.x) * t, a.y + (b.y - a.y) * t, a.z + (b.z - a.z) * t)
  }

  lemma ScaleBetween(p: real, t: real)
    requires p >= 0.0 && 0.0 <= t <= 1.0
    ensures 0.0 <= p * t <= p
  {
    assert p - p * t == p * (1.0 - t);
  }

  /** `lerp` written the way `lerpVectors` computes each component. */
  lemma LerpOffset(a: real, b: real, t: real)
    ensures Lerp(a, b, t) == a + (b - a) * t
  {
    assert (1.0 - t) * a == a - t * a;
    assert t * b - t * a == (b - a) * t;
  }

  /** For `t` in [0, 1] the interpolation stays between its end points, and
      it meets those end points at 0 and 1. */
  lemma LerpBetween(a: real, b: real, t: real)
    requires 0.0 <= t <= 1.0
    ensures Lerp(a, b, 0.0) == a && Lerp(a, b, 1.0) == b
    ensures a <= b ==> a <= Lerp(a, b, t) <= b
    ensures b <= a ==> b <= Lerp(a, b, t) <= a
  {
    LerpOffset(a, b, t);
    if a <= b {
      ScaleBetween(b - a, t);
    } else {
      ScaleBetween(a - b, t);
      assert (b - a) * t == -((a - b) * t);
    }
  }

  /** The pose `onUpdate` writes for tween value `val`: rotation from
      `start` towards the rest rotation, height from 30 towards the rest
      height, x and z fixed at the tile's position. */
  function AnimatedPose(tile: Tile, start: Vec3, val: real): (pose: Pose)
    ensures pose.position.x == tile.pos.x && pose.position.z == tile.pos.z
  {
    Pose(Vec3(tile.pos.x, Lerp(LaunchHeight, tile.y, val), tile.pos.z),
         LerpVectors(start, tile.rot, val))
  }

  /** At 0 the tile is at the random spin and height 30; at 1 it is back in
      exactly the pose the grid builder wrote, whatever the spin was. */
  lemma AnimationEndpoints(tile: Tile, start: Vec3)
    requires tile.pos.y == tile.y
    ensures AnimatedPose(tile, start, 0.0) == Pose(Vec3(tile.pos.x, LaunchHeight, tile.pos.z), start)
    ensures AnimatedPose(tile, start, 1.0) == RestPose(tile)
  {
    LerpBetween(LaunchHeight, tile.y, 0.0);
    assert LerpVectors(start, tile.rot, 1.0) == tile.rot;
  }

  /** During the tween the tile stays over its grid cell and its height stays
      between the launch height and its rest height. */
  lemma AnimationStaysOverTile(tile: Tile, start: Vec3, val: real)
    requires 0.0 <= val <= 1.0
    ensures var p := AnimatedPose(tile, start, val).position;
      && p.x == tile.pos.x && p.z == tile.pos.z
      && (tile.y <= LaunchHeight ==> tile.y <= p.y <= LaunchHeight)
      && (LaunchHeight <= tile.y ==> LaunchHeight <= p.y <= tile.y)
  {
    LerpBetween(LaunchHeight, tile.y, val);
  }

  /** `Math.sign`. */
  function Sign(x: real): real
  {
    if x > 0.0 then 1.0 else if x < 0.0 then -1.0 else 0.0
  }

  /** One component of `v2` after `random().multiplyScalar(0.5).addScalar(0.5)
      .multiplyScalar(PI * 3 * sign(coin - 0.5))`. */
  function SpinAngle(c: real, coin: real): real
  {
    (c * 0.5 + 0.5) * (Pi * 3.0 * Sign(coin - 0.5))
  }

  /** The random start rotation for component draws `spin` and sign draw `coin`. */
  function StartRotation(spin: Vec3, coin: real): (v: Vec3)
    ensures coin == 0.5 ==> v == Origin
    ensures (0.0 <= spin.x && 0.0 <= spin.y && 0.0 <= spin.z) ==>
      Sign(v.x) == Sign(coin - 0.5) && Sign(v.y) == Sign(coin - 0.5) && Sign(v.z) == Sign(coin - 0.5)
  {
    Vec3(SpinAngle(spin.x, coin), SpinAngle(spin.y, coin), SpinAngle(spin.z, coin))
  }

  /** One spin angle lies in [1.5 pi, 3 pi) turned the way of the coin; a
      coin of exactly 0.5 gives no spin at all. */
  lemma SpinAngleRange(c: real, coin: real)
    requires 0.0 <= c < 1.0
    ensures coin > 0.5 ==> 1.5 * Pi <= SpinAngle(c, coin) < 3.0 * Pi
    ensures coin < 0.5 ==> -3.0 * Pi < SpinAngle(c, coin) <= -1.5 * Pi
    ensures coin == 0.5 ==> SpinAngle(c, coin) == 0.0
  {
    var m := c * 0.5 + 0.5;
    assert 0.5 <= m < 1.0;
    if coin > 0.5 {
      assert SpinAngle(c, coin) == m * (3.0 * Pi);
    } else if coin < 0.5 {
      assert SpinAngle(c, coin) == -(m * (3.0 * Pi));
    }
  }

  /** All three start angles turn the same way, by at least three quarters of
      a turn and less than one and a half turns. */
  lemma StartRotationRange(spin: Vec3, coin: real)
    requires 0.0 <= spin.x < 1.0 && 0.0 <= spin.y < 1.0 && 0.0 <= spin.z < 1.0
    ensures var v := StartRotation(spin, coin);
      && (coin > 0.5 ==> 1.5 * Pi <= v.x < 3.0 * Pi && 1.5 * Pi <= v.y < 3.0 * Pi && 1.5 * Pi <= v.z < 3.0 * Pi)
      && (coin < 0.5 ==> -3.0 * Pi < v.x <= -1.5 * Pi && -3.0 * Pi < v.y <= -1.5 * Pi && -3.0 * Pi < v.z <= -1.5 * Pi)
      && (coin == 0.5 ==> v == Origin)
  {
    SpinAngleRange(spin.x, coin);
    SpinAngleRange(spin.y, coin);
    SpinAngleRange(spin.z, coin);
  }

  /** Delay of a slot's first animation, from one `Math.random()` draw. */
  function InitialDelay(r: real): (d: real)
    requires 0.0 <= r < 1.0
    ensures 1000.0 <= d < DelaySpan
  {
    (r * 0.9 + 0.1) * DelaySpan
  }

  /** Delay of every later animation of a slot, from one `Math.random()` draw. */
  function RescheduleDelay(r: real): (d: real)
    requires 0.0 <= r < 1.0
    ensures 0.0 <= d < DelaySpan
  {
    r * DelaySpan
  }
}
