/** The per-pixel inundation mask of the sea-level-rise preprocessing script.
    A block of inundation depths (read from a single-band raster) is turned
    into a block of bytes: 1 where the pixel is underwater, that is where the
    depth is strictly positive, and 0 everywhere else, including depths of
    exactly zero, negative depths and the large negative values that stand for
    nodata in the source raster. The target raster declares 255 as its nodata
    value, and the mask never writes it.

    The raster block is flattened to one dimension: the operation is
    element-wise, so the shape only matters through the number of cells. */
module InundationMask {

  /** An unsigned 8-bit pixel value, the element type of the output raster. */
  newtype Byte = x: int | 0 <= x < 256

  /** The nodata value of the target raster. */
  const NODATA: Byte := 255

  /** A pixel value the mask may produce: 0 (above water) or 1 (underwater). */
  predicate IsMaskByte(b: Byte) {
    b == 0 || b == 1
  }

  /** The mask of one pixel, given its inundation depth. */
  function MaskValue(depth: real): (b: Byte)
    ensures IsMaskByte(b) && b != NODATA
    ensures b == 1 <==> depth > 0.0
  {
    if depth > 0.0 then 1 else 0
  }

  /** The mask of a whole block of depths, pixel by pixel, as a reference
      definition for the array-based method below. */
  function Mask(depths: seq<real>): (m: seq<Byte>)
    ensures |m| == |depths|
  {
    if |depths| == 0 then [] else [MaskValue(depths[0])] + Mask(depths[1..])
  }

  /** Cell i of the mask is the mask of depth i, and nothing else. */
  lemma {:induction false} MaskAt(depths: seq<real>, i: nat)
    requires i < |depths|
    ensures Mask(depths)[i] == MaskValue(depths[i])
  {
    if i > 0 {
      MaskAt(depths[1..], i - 1);
    }
  }

  /** A cell is 1 exactly when its depth is strictly positive, and 0 exactly
      when it is not (zero, negative, or a large negative nodata depth). */
  lemma {:induction false} MaskUnderwaterIff(depths: seq<real>, i: nat)
    requires i < |depths|
    ensures Mask(depths)[i] == 1 <==> depths[i] > 0.0
    ensures Mask(depths)[i] == 0 <==> depths[i] <= 0.0
  {
    MaskAt(depths, i);
  }

  /** Every cell of the mask is 0 or 1; none is the target nodata value. */
  lemma {:induction false} MaskIsBinary(depths: seq<real>)
    ensures forall i :: 0 <= i < |Mask(depths)| ==> IsMaskByte(Mask(depths)[i])
    ensures NODATA !in Mask(depths)
  {
    forall i | 0 <= i < |Mask(depths)|
      ensures IsMaskByte(Mask(depths)[i]) && Mask(depths)[i] != NODATA
    {
      MaskAt(depths, i);
    }
  }

  /** The mask is pointwise: changing the depth of cell j leaves every other
      cell of the mask as it was. */
  lemma {:induction false} MaskPointwise(depths: seq<real>, j: nat, d: real, i: nat)
    requires j < |depths| && i < |depths| && i != j
    ensures Mask(depths[j := d])[i] == Mask(depths)[i]
  {
    MaskAt(depths[j := d], i);
    MaskAt(depths, i);
  }

  /** The mask distributes over concatenation: masking two consecutive runs
      of the flattened raster (for instance blocks made of whole rows) and
      joining the results gives the mask of the whole. */
  lemma {:induction false} MaskBlocks(a: seq<real>, b: seq<real>)
    ensures Mask(a + b) == Mask(a) + Mask(b)
  {
    if |a| > 0 {
      assert (a + b)[1..] == a[1..] + b;
      MaskBlocks(a[1..], b);
    } else {
      assert a + b == b;
    }
  }

  /** Masking any selection of cells, in any order, gives the same cells as
      masking the whole raster and then selecting them. In particular a
      rectangular window narrower than the raster, which is not a run of
      consecutive cells once the raster is flattened row by row, is masked
      the same whether it is masked alone or as part of the whole. */
  lemma {:induction false} MaskWindow(depths: seq<real>, idx: seq<nat>)
    requires forall k :: 0 <= k < |idx| ==> idx[k] < |depths|
    ensures Mask(seq(|idx|, k requires 0 <= k < |idx| => depths[idx[k]]))
         == seq(|idx|, k requires 0 <= k < |idx| => Mask(depths)[idx[k]])
  {
    var window := seq(|idx|, k requires 0 <= k < |idx| => depths[idx[k]]);
    forall k | 0 <= k < |idx|
      ensures Mask(window)[k] == Mask(depths)[idx[k]]
    {
      MaskAt(window, k);
      MaskAt(depths, idx[k]);
    }
  }

  /** A block holding a deep pixel, a shallow one, a dry one at depth zero, a
      negative depth and the most negative 32-bit float, a typical nodata
      value of depth rasters. */
  lemma MaskExample()
    ensures Mask([3.25, 0.001, 0.0, -1.5, -340282346638528859811704183484516925440.0])
         == [1, 1, 0, 0, 0]
  {
  }

  /** Allocates the output block, sets every cell to 0 and then sets to 1 the
      cells whose depth is strictly positive. The depth block is only read. */
  method MaskInundation(depth: array<real>) returns (out: array<Byte>)
    ensures fresh(out)
    ensures out.Length == depth.Length
    ensures forall i :: 0 <= i < out.Length ==> out[i] == MaskValue(depth[i])
    ensures out[..] == Mask(depth[..])
    ensures depth[..] == old(depth[..])
  {
    // Fresh storage of the same size; its contents are unspecified.
    out := new Byte[depth.Length];
    var i := 0;
    while i < out.Length
      invariant 0 <= i <= out.Length
      invariant forall k :: 0 <= k < i ==> out[k] == 0
    {
      out[i] := 0;
      i := i + 1;
    }
    i := 0;
    while i < out.Length
      invariant 0 <= i <= out.Length
      invariant forall k :: 0 <= k < i ==> out[k] == MaskValue(depth[k])
      invariant forall k :: i <= k < out.Length ==> out[k] == 0
    {
      if depth[i] > 0.0 {
        out[i] := 1;
      }
      i := i + 1;
    }
    forall k | 0 <= k < out.Length
      ensures out[..][k] == Mask(depth[..])[k]
    {
      MaskAt(depth[..], k);
    }
  }
}
