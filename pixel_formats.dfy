/** The pixel-format layer the drawing core is written against: the canonical
    four-component colour vector, the conversions between a concrete pixel
    encoding `P` and that vector, and the pixel blender. The conversions and the
    blend function are supplied by the caller as functions: their arithmetic
    (scaling, rounding, premultiplication, the blend formula) is not modelled.
    The bulk row operations below are the per-element meaning of the library
    calls the core makes, with the length guards those calls enforce. */
module PixelFormats {

  /** The canonical colour vector; X, Y, Z and W hold red, green, blue and alpha. */
  datatype Vector4 = Vector4(x: real, y: real, z: real, w: real)

  /** The conversions PixelOperations<TPixel> offers for one pixel type, under the
      Scale modifier: pixel to canonical vector and back. */
  datatype PixelOperations<!P> = PixelOperations(toVector: P -> Vector4, fromVector: Vector4 -> P)

  /** A pixel blender: blend(background, source, amount) is the composited pixel. */
  datatype PixelBlender<!P> = PixelBlender(blend: (P, P, real) -> P)

  /** Converting a pixel to a vector and back gives the same pixel (true of every
      encoding whose channels the canonical vector represents exactly). */
  ghost predicate RoundTrips<P(!new)>(ops: PixelOperations<P>)
  {
    forall p: P :: ops.fromVector(ops.toVector(p)) == p
  }

  /** An opaque vector stays opaque through quantisation to the pixel type. */
  ghost predicate KeepsOpaque<P>(ops: PixelOperations<P>)
  {
    forall v: Vector4 :: v.w == 1.0 ==> ops.toVector(ops.fromVector(v)).w == 1.0
  }

  /** PixelOperations.ToVector4 on the row slice [left, left + count) of row y:
      converts each pixel into the destination span, which must be at least as
      long as the source slice. */
  method ToVector4<P>(ops: PixelOperations<P>, source: array2<P>, y: int, left: int, count: int,
                      destination: array<Vector4>)
    requires 0 <= y < source.Length0 && 0 <= left && 0 <= count && left + count <= source.Length1
    requires count <= destination.Length
    modifies destination
    ensures forall i :: 0 <= i < count ==> destination[i] == ops.toVector(source[y, left + i])
    ensures forall i :: count <= i < destination.Length ==> destination[i] == old(destination[i])
  {
    for i := 0 to count
      invariant forall k :: 0 <= k < i ==> destination[k] == ops.toVector(source[y, left + k])
      invariant forall k :: i <= k < destination.Length ==> destination[k] == old(destination[k])
    {
      destination[i] := ops.toVector(source[y, left + i]);
    }
  }

  /** PixelOperations.FromVector4Destructive into the row slice [left, left + count)
      of row y: converts every vector of the source span back to a pixel; the
      destination slice must be at least as long as the source span. The library
      may use the source span as scratch; this model leaves it as it was. */
  method FromVector4Destructive<P>(ops: PixelOperations<P>, source: array<Vector4>,
                                   destination: array2<P>, y: int, left: int, count: int)
    requires 0 <= y < destination.Length0 && 0 <= left && 0 <= count && left + count <= destination.Length1
    requires source.Length <= count
    modifies destination
    ensures forall r, c :: 0 <= r < destination.Length0 && 0 <= c < destination.Length1 ==>
      destination[r, c] == if r == y && left <= c < left + source.Length
                           then ops.fromVector(source[c - left])
                           else old(destination[r, c])
  {
    for i := 0 to source.Length
      invariant forall r, c :: 0 <= r < destination.Length0 && 0 <= c < destination.Length1 ==>
        destination[r, c] == if r == y && left <= c < left + i
                             then ops.fromVector(source[c - left])
                             else old(destination[r, c])
    {
      destination[y, left + i] := ops.fromVector(source[i]);
    }
  }

  /** PixelBlender.Blend with the destination and the background being the same
      span, row y from column x, of length count: each pixel becomes the blend of
      itself with source[i] by amount[i]. Source and amount must cover the
      destination. */
  method Blend<P>(blender: PixelBlender<P>, destination: array2<P>, y: int, x: int, count: int,
                  source: array<P>, amount: seq<real>)
    requires 0 <= y < destination.Length0 && 0 <= x && 0 <= count && x + count <= destination.Length1
    requires count <= source.Length && count <= |amount|
    modifies destination
    ensures forall r, c :: 0 <= r < destination.Length0 && 0 <= c < destination.Length1 ==>
      destination[r, c] == if r == y && x <= c < x + count
                           then blender.blend(old(destination[r, c]), source[c - x], amount[c - x])
                           else old(destination[r, c])
  {
    for i := 0 to count
      invariant forall r, c :: 0 <= r < destination.Length0 && 0 <= c < destination.Length1 ==>
        destination[r, c] == if r == y && x <= c < x + i
                             then blender.blend(old(destination[r, c]), source[c - x], amount[c - x])
                             else old(destination[r, c])
    {
      destination[y, x + i] := blender.blend(destination[y, x + i], source[i], amount[i]);
    }
  }
}
