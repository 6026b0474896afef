/**
 * The tile grid of the emoji terrain: a `tileDim x tileDim` grid of tiles
 * centred on the origin, built in row-major order.  Tile (x, z) is the
 * `z * tileDim + x`-th record pushed to `finals` and is written to the
 * same slot of the instanced mesh.
 */
module TileGrid {

  datatype Vec3 = Vec3(x: real, y: real, z: real)

  /** A transform as `Object3D.updateMatrix` composes it (unit scale).  An
      instance matrix is modelled by the pose it was composed from. */
  datatype Pose = Pose(position: Vec3, rotation: Vec3)

  const Origin: Vec3 := Vec3(0.0, 0.0, 0.0)

  /** The matrix of a fresh `Object3D`, and of every instance slot before it is written. */
  const Identity: Pose := Pose(Origin, Origin)

  /** Side length of the grid in the terrain. */
  const TileDim: nat := 200

  /** The resting part of a `finals` record: height, position and orientation. */
  datatype Tile = Tile(y: real, pos: Vec3, rot: Vec3)

  /** The matrix written for a tile at rest. */
  function RestPose(t: Tile): Pose
  {
    Pose(t.pos, t.rot)
  }

  /** Instance slot (and `finals` position) of grid cell (x, z). */
  function Slot(x: int, z: int, dim: nat): (s: int)
    requires 0 <= x < dim && 0 <= z < dim
    ensures 0 <= s < dim * dim
  {
    MulBelow(z, dim);
    z * dim + x
  }

  lemma MulBelow(z: int, dim: nat)
    requires 0 <= z < dim
    ensures 0 <= z * dim && z * dim + dim <= dim * dim
  {
    assert z * dim + dim == (z + 1) * dim;
    assert (z + 1) * dim <= dim * dim;
  }

  lemma MulAtLeast(k: int, d: nat)
    requires k >= 1
    ensures k * d >= d
  {
    assert k * d == (k - 1) * d + d;
    assert (k - 1) * d >= 0;
  }

  /** Quotient and remainder are determined by any decomposition `s == z * d + x`. */
  lemma DivModUnique(s: int, d: nat, z: int, x: int)
    requires d > 0 && 0 <= x < d && s == z * d + x
    ensures s / d == z && s % d == x
  {
    var q, r := s / d, s % d;
    assert s == q * d + r;
    assert (z - q) * d == r - x;
    assert (q - z) * d == x - r;
    if z - q >= 1 {
      MulAtLeast(z - q, d);
    } else if q - z >= 1 {
      MulAtLeast(q - z, d);
    }
  }

  /** Slot of (x, z) lies in [0, dim * dim), and x and z are read back from it. */
  lemma SlotInRange(x: int, z: int, dim: nat)
    requires 0 <= x < dim && 0 <= z < dim
    ensures 0 <= Slot(x, z, dim) < dim * dim
    ensures Slot(x, z, dim) % dim == x && Slot(x, z, dim) / dim == z
  {
    MulBelow(z, dim);
    DivModUnique(Slot(x, z, dim), dim, z, x);
  }

  /** Every slot of [0, dim * dim) is the slot of exactly one grid cell. */
  lemma SlotOnto(s: int, dim: nat)
    requires 0 <= s < dim * dim
    ensures 0 <= s % dim < dim && 0 <= s / dim < dim
    ensures Slot(s % dim, s / dim, dim) == s
  {
    assert dim > 0;
    var q := s / dim;
    assert s == q * dim + s % dim;
    assert q * dim == (q - dim + 1) * dim + (dim - 1) * dim;
    assert (dim - 1) * dim + dim == dim * dim;
    assert q * dim == -((-q) * dim);
    if q >= dim {
      MulAtLeast(q - dim + 1, dim);
    } else if q < 0 {
      MulAtLeast(-q, dim);
    }
  }

  lemma SlotInjective(x1: int, z1: int, x2: int, z2: int, dim: nat)
    requires 0 <= x1 < dim && 0 <= z1 < dim && 0 <= x2 < dim && 0 <= z2 < dim
    requires Slot(x1, z1, dim) == Slot(x2, z2, dim)
    ensures x1 == x2 && z1 == z2
  {
    SlotInRange(x1, z1, dim);
    SlotInRange(x2, z2, dim);
  }

  /** World coordinate of grid column (or row) `k`: the grid is centred on the origin. */
  function Centre(k: int, dim: int): real
  {
    -((dim - 1) as real) * 0.5 + k as real
  }

  /** Column `k` and its mirror `dim - 1 - k` lie symmetrically about the origin,
      and neighbouring columns are one unit apart. */
  lemma CentreSymmetric(k: int, dim: int)
    ensures Centre(k, dim) + Centre(dim - 1 - k, dim) == 0.0
    ensures Centre(k + 1, dim) - Centre(k, dim) == 1.0
  {
  }

  /**
   * The record the grid loop produces for cell (x, z).  `height` is the
   * noise field sampled at a centred position; `aim` gives the Euler angles
   * `lookAt` produces at that position when the tile faces along the local
   * surface normal.  The loop then zeroes the roll (`rotation.z = 0`).
   */
  function RestTile(x: int, z: int, dim: int, height: (real, real) -> real, aim: (real, real) -> Vec3): (t: Tile)
    ensures t.pos.y == t.y && t.rot.z == 0.0
    ensures t.pos.x == Centre(x, dim) && t.pos.z == Centre(z, dim)
    ensures t.y == height(Centre(x, dim), Centre(z, dim))
  {
    var px, pz := Centre(x, dim), Centre(z, dim);
    var y0 := height(px, pz);
    var r := aim(px, pz);
    Tile(y0, Vec3(px, y0, pz), Vec3(r.x, r.y, 0.0))
  }

  /** A record as the grid loop shapes it: its position carries its own height,
      it sits at the centred position of a grid cell and it has no roll. */
  ghost predicate WellFormed(t: Tile, dim: int)
  {
    && t.pos.y == t.y
    && t.rot.z == 0.0
    && exists x, z :: 0 <= x < dim && 0 <= z < dim && t.pos.x == Centre(x, dim) && t.pos.z == Centre(z, dim)
  }

  /**
   * The nested z/x loop of the terrain builder: push each record to
   * `finals` and write its rest matrix into the instance slot `z * dim + x`
   * of a fresh mesh whose slots start at the identity.
   */
  method BuildGrid(dim: nat, height: (real, real) -> real, aim: (real, real) -> Vec3)
    returns (finals: seq<Tile>, matrices: seq<Pose>)
    ensures |finals| == dim * dim && |matrices| == dim * dim
    ensures forall x, z :: 0 <= x < dim && 0 <= z < dim ==>
      finals[Slot(x, z, dim)] == RestTile(x, z, dim, height, aim)
    ensures forall k :: 0 <= k < dim * dim ==> matrices[k] == RestPose(finals[k])
    ensures forall k :: 0 <= k < dim * dim ==> WellFormed(finals[k], dim)
  {
    var mesh := new Pose[dim * dim](_ => Identity);
    finals := [];
    var z := 0;
    while z < dim
      invariant 0 <= z <= dim
      invariant |finals| == z * dim
      invariant forall k :: 0 <= k < |finals| ==> finals[k] == RestTile(k % dim, k / dim, dim, height, aim)
      invariant forall k :: 0 <= k < dim * dim ==>
        mesh[k] == if k < |finals| then RestPose(finals[k]) else Identity
    {
      MulBelow(z, dim);
      var x := 0;
      while x < dim
        invariant 0 <= x <= dim
        invariant |finals| == z * dim + x
        invariant forall k :: 0 <= k < |finals| ==> finals[k] == RestTile(k % dim, k / dim, dim, height, aim)
        invariant forall k :: 0 <= k < dim * dim ==>
          mesh[k] == if k < |finals| then RestPose(finals[k]) else Identity
      {
        var t := RestTile(x, z, dim, height, aim);
        SlotInRange(x, z, dim);
        mesh[Slot(x, z, dim)] := RestPose(t);
        finals := finals + [t];
        x := x + 1;
      }
      assert z * dim + dim == (z + 1) * dim;
      z := z + 1;
    }
    matrices := mesh[..];
    forall x, z | 0 <= x < dim && 0 <= z < dim
      ensures finals[Slot(x, z, dim)] == RestTile(x, z, dim, height, aim)
    {
      SlotInRange(x, z, dim);
    }
    forall k | 0 <= k < dim * dim
      ensures WellFormed(finals[k], dim)
    {
      SlotOnto(k, dim);
      assert finals[k].pos.x == Centre(k % dim, dim) && finals[k].pos.z == Centre(k / dim, dim);
    }
  }
}
