/**
 * `utils/lbl_extract.py`: a mask of the regions of interest of an atlas
 * volume that keeps each region's own label and is 0 elsewhere.
 */
module LblExtract {

  /** The HCP atlas labels of L-RSC and L-POS2. */
  const RegionsOfInterest: seq<real> := [14.0, 15.0]

  /** What the loop leaves at a voxel of atlas value `v` after the labels `labels`,
      one `combined_mask[atlas == label] = label` after the other. */
  function Sequential(v: real, labels: seq<real>): real
  {
    if labels == [] then 0.0
    else if labels[|labels| - 1] == v then v
    else Sequential(v, labels[..|labels| - 1])
  }

  /** The mask's value for atlas value `v`: `v` when it is one of the labels, else 0. */
  function MaskValue(v: real, labels: seq<real>): (m: real)
    ensures m == 0.0 || m in labels
  {
    if v in labels then v else 0.0
  }

  /** The label-by-label assignments give the mask value. */
  lemma {:induction false} SequentialIsMask(v: real, labels: seq<real>)
    ensures Sequential(v, labels) == MaskValue(v, labels)
  {
    if labels != [] {
      var init := labels[..|labels| - 1];
      SequentialIsMask(v, init);
      assert labels == init + [labels[|labels| - 1]];
      assert v in labels <==> v in init || v == labels[|labels| - 1];
    }
  }

  /** The order of the labels, and repeated labels, do not change the mask. */
  lemma LabelOrderIrrelevant(v: real, labels1: seq<real>, labels2: seq<real>)
    requires forall x :: x in labels1 <==> x in labels2
    ensures Sequential(v, labels1) == Sequential(v, labels2)
  {
    SequentialIsMask(v, labels1);
    SequentialIsMask(v, labels2);
  }

  /** With the two regions, label 14 and 15 voxels keep their label and all others are 0. */
  lemma RegionsExample(v: real)
    ensures Sequential(v, RegionsOfInterest) == (if v == 14.0 || v == 15.0 then v else 0.0)
  {
    SequentialIsMask(v, RegionsOfInterest);
  }

  ghost predicate SameShape(a: array3<real>, b: array3<real>) {
    a.Length0 == b.Length0 && a.Length1 == b.Length1 && a.Length2 == b.Length2
  }

  /** Voxel (i, j, k) comes before (x, y, z) in the order the loops visit them. */
  predicate Before(i: int, j: int, k: int, x: int, y: int, z: int) {
    i < x || (i == x && (j < y || (j == y && k < z)))
  }

  /** `combined_mask[atlas == region] = region`, voxel by voxel. */
  method ApplyLabel(mask: array3<real>, atlas: array3<real>, region: real)
    requires SameShape(mask, atlas) && mask != atlas
    modifies mask
    ensures forall i, j, k :: 0 <= i < mask.Length0 && 0 <= j < mask.Length1 && 0 <= k < mask.Length2 ==>
              mask[i, j, k] == (if atlas[i, j, k] == region then region else old(mask[i, j, k]))
  {
    for x := 0 to mask.Length0
      invariant forall i, j, k :: 0 <= i < mask.Length0 && 0 <= j < mask.Length1 && 0 <= k < mask.Length2 ==>
                  mask[i, j, k] == (if i < x && atlas[i, j, k] == region then region else old(mask[i, j, k]))
    {
      for y := 0 to mask.Length1
        invariant forall i, j, k :: 0 <= i < mask.Length0 && 0 <= j < mask.Length1 && 0 <= k < mask.Length2 ==>
                    mask[i, j, k] == (if (i < x || (i == x && j < y)) && atlas[i, j, k] == region
                                      then region else old(mask[i, j, k]))
      {
        for z := 0 to mask.Length2
          invariant forall i, j, k :: 0 <= i < mask.Length0 && 0 <= j < mask.Length1 && 0 <= k < mask.Length2 ==>
                      mask[i, j, k] == (if Before(i, j, k, x, y, z) && atlas[i, j, k] == region
                                        then region else old(mask[i, j, k]))
        {
          if atlas[x, y, z] == region {
            mask[x, y, z] := region;
          }
        }
      }
    }
  }

  /** `np.zeros_like(atlas)`, then one masked assignment per label; the atlas is only read. */
  method CreateMask(atlas: array3<real>, labels: seq<real>) returns (mask: array3<real>)
    ensures fresh(mask) && SameShape(mask, atlas)
    ensures forall i, j, k :: 0 <= i < mask.Length0 && 0 <= j < mask.Length1 && 0 <= k < mask.Length2 ==>
              mask[i, j, k] == MaskValue(atlas[i, j, k], labels)
  {
    mask := new real[atlas.Length0, atlas.Length1, atlas.Length2]((i, j, k) => 0.0);
    for n := 0 to |labels|
      invariant SameShape(mask, atlas)
      invariant forall i, j, k :: 0 <= i < mask.Length0 && 0 <= j < mask.Length1 && 0 <= k < mask.Length2 ==>
                  mask[i, j, k] == Sequential(atlas[i, j, k], labels[..n])
    {
      assert labels[..n + 1][..n] == labels[..n];
      ApplyLabel(mask, atlas, labels[n]);
    }
    assert labels[..|labels|] == labels;
    forall i, j, k | 0 <= i < mask.Length0 && 0 <= j < mask.Length1 && 0 <= k < mask.Length2
      ensures mask[i, j, k] == MaskValue(atlas[i, j, k], labels)
    {
      SequentialIsMask(atlas[i, j, k], labels);
    }
  }
}
