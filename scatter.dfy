/**
 * The mesh-point to voxel scatter shared by `optimizer/sur2vol.py` and
 * `utils/normal_extract.py`: a zero volume of the reference image's shape is
 * written point by point at each point's (already rounded) voxel index, when
 * that index lies inside the volume, so the last point mapping to a voxel
 * decides its value.
 */
module Scatter {

  /** The shape of the reference NIfTI image. */
  datatype Shape = Shape(d0: nat, d1: nat, d2: nat)

  /** A point's voxel index: `np.round(coord).astype(int)` of its voxel coordinates. */
  type Voxel = (int, int, int)

  predicate InBounds(shape: Shape, v: Voxel) {
    0 <= v.0 < shape.d0 && 0 <= v.1 < shape.d1 && 0 <= v.2 < shape.d2
  }

  /** `zip(xs, ys)`: positional pairs, as many as the shorter sequence has. */
  function Zip<A, B>(xs: seq<A>, ys: seq<B>): (r: seq<(A, B)>)
    ensures |r| == if |xs| <= |ys| then |xs| else |ys|
    ensures forall i :: 0 <= i < |r| ==> r[i] == (xs[i], ys[i])
  {
    var n := if |xs| <= |ys| then |xs| else |ys|;
    seq(n, i requires 0 <= i < n => (xs[i], ys[i]))
  }

  /** The value the scatter leaves at voxel `v`: that of the last point whose
      index is `v`, or 0 when there is none. */
  function VoxelValue(points: seq<(Voxel, real)>, v: Voxel): real
  {
    if points == [] then 0.0
    else if points[|points| - 1].0 == v then points[|points| - 1].1
    else VoxelValue(points[..|points| - 1], v)
  }

  /** The volume holds at every in-bounds voxel the value `VoxelValue` gives it. */
  ghost predicate Holds(vol: array3<real>, shape: Shape, points: seq<(Voxel, real)>)
    reads vol
  {
    && vol.Length0 == shape.d0 && vol.Length1 == shape.d1 && vol.Length2 == shape.d2
    && forall x, y, z :: 0 <= x < shape.d0 && 0 <= y < shape.d1 && 0 <= z < shape.d2 ==>
         vol[x, y, z] == VoxelValue(points, (x, y, z))
  }

  /** `np.zeros(volume_shape)`, then one guarded write per (index, value) pair of `zip`. */
  method ScatterPoints(shape: Shape, indices: seq<Voxel>, values: seq<real>) returns (vol: array3<real>)
    ensures fresh(vol)
    ensures Holds(vol, shape, Zip(indices, values))
  {
    vol := new real[shape.d0, shape.d1, shape.d2]((x, y, z) => 0.0);
    var points := Zip(indices, values);
    var i := 0;
    while i < |points|
      invariant i <= |points|
      invariant Holds(vol, shape, points[..i])
    {
      var (v, value) := points[i];
      assert points[..i + 1][..i] == points[..i];
      if InBounds(shape, v) {
        vol[v.0, v.1, v.2] := value;
      }
      assert Holds(vol, shape, points[..i + 1]) by {
        forall x, y, z | 0 <= x < shape.d0 && 0 <= y < shape.d1 && 0 <= z < shape.d2
          ensures vol[x, y, z] == VoxelValue(points[..i + 1], (x, y, z))
        {
          assert points[..i + 1][i] == points[i];
        }
      }
      i := i + 1;
    }
    assert points[..i] == points;
  }

  /** A point outside the volume changes no voxel. */
  lemma OutOfBoundsPointIgnored(shape: Shape, points: seq<(Voxel, real)>, p: (Voxel, real), v: Voxel)
    requires !InBounds(shape, p.0) && InBounds(shape, v)
    ensures VoxelValue(points + [p], v) == VoxelValue(points, v)
  {
    assert (points + [p])[..|points|] == points;
  }

  /** Last writer wins: the voxel holds the value of the last point mapping to it. */
  lemma {:induction false} LastWriterWins(points: seq<(Voxel, real)>, k: nat, v: Voxel)
    requires k < |points| && points[k].0 == v
    requires forall j :: k < j < |points| ==> points[j].0 != v
    ensures VoxelValue(points, v) == points[k].1
  {
    if k < |points| - 1 {
      var init := points[..|points| - 1];
      LastWriterWins(init, k, v);
    }
  }

  /** A voxel no point maps to stays 0. */
  lemma {:induction false} UntouchedVoxelZero(points: seq<(Voxel, real)>, v: Voxel)
    requires forall j :: 0 <= j < |points| ==> points[j].0 != v
    ensures VoxelValue(points, v) == 0.0
  {
    if points != [] {
      UntouchedVoxelZero(points[..|points| - 1], v);
    }
  }

  /** Every voxel holds 0 or the value of some point mapping to it. */
  lemma {:induction false} VoxelValueOrigin(points: seq<(Voxel, real)>, v: Voxel)
    ensures VoxelValue(points, v) == 0.0
         || exists j :: 0 <= j < |points| && points[j].0 == v && points[j].1 == VoxelValue(points, v)
  {
    if points != [] && points[|points| - 1].0 != v {
      var init := points[..|points| - 1];
      VoxelValueOrigin(init, v);
      if VoxelValue(init, v) != 0.0 {
        var j :| 0 <= j < |init| && init[j].0 == v && init[j].1 == VoxelValue(init, v);
        assert points[j] == init[j];
      }
    }
  }

  /** Values beyond the last index (or indices beyond the last value) are never paired. */
  lemma ZipDropsSurplus<A, B>(xs: seq<A>, ys: seq<B>, extra: seq<B>)
    requires |xs| <= |ys|
    ensures Zip(xs, ys + extra) == Zip(xs, ys)
  {
  }
}
