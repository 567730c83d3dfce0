/** The eight sprite and image transforms. Their codes are the `TRANS_*`
    constants of `Sprite`; `Image` tests them through two bit masks. Both
    classes use the same codes, so they live in one module here. */
module Transform {
  /** A transform argument: the 32 bits of the Java `int` passed in. A
      negative `int` is a pattern with the top bit set. */
  type Code = bv32

  const TRANS_NONE: Code := 0
  const TRANS_ROT90: Code := 5
  const TRANS_ROT180: Code := 3
  const TRANS_ROT270: Code := 6
  const TRANS_MIRROR: Code := 2
  const TRANS_MIRROR_ROT90: Code := 7
  const TRANS_MIRROR_ROT180: Code := 1
  const TRANS_MIRROR_ROT270: Code := 4

  /** Bits that no valid transform code has set (valid codes are 0..7). */
  const INVALID_TRANSFORM_BITS: bv32 := 0xFFFF_FFF8

  /** The bit that marks a transform exchanging width and height. */
  const TRANSFORM_SWAP_AXIS: bv32 := 4

  /** `(transform & INVALID_TRANSFORM_BITS) == 0`, the test Image applies. */
  predicate IsValid(transform: Code) {
    transform & INVALID_TRANSFORM_BITS == 0
  }

  /** `(transform & TRANSFORM_SWAP_AXIS) != 0`. */
  predicate SwapsAxes(transform: Code) {
    transform & TRANSFORM_SWAP_AXIS != 0
  }

  /** The set of the eight named transform codes. */
  function AllTransforms(): set<Code> {
    {TRANS_NONE, TRANS_ROT90, TRANS_ROT180, TRANS_ROT270,
     TRANS_MIRROR, TRANS_MIRROR_ROT90, TRANS_MIRROR_ROT180, TRANS_MIRROR_ROT270}
  }

  /** The mask test accepts exactly the codes 0..7; every negative Java
      `int` (top bit set) is rejected. */
  lemma ValidIffInRange(transform: Code)
    ensures IsValid(transform) <==> transform < 8
    ensures transform >= 0x8000_0000 ==> !IsValid(transform)
  {
  }

  /** The eight constants are distinct and are exactly the valid codes. */
  lemma TransformCodes()
    ensures |AllTransforms()| == 8
    ensures forall t: Code :: t in AllTransforms() <==> IsValid(t)
  {
    var all := AllTransforms();
    assert all == {0, 1, 2, 3, 4, 5, 6, 7};
    forall t: Code ensures t in all <==> IsValid(t) {
      ValidIffInRange(t);
      if t < 8 {
        assert t == 0 || t == 1 || t == 2 || t == 3 || t == 4 || t == 5 || t == 6 || t == 7;
      }
    }
  }

  /** Among the valid codes, the swap bit is set exactly for the quarter
      turns, mirrored or not: the transforms that exchange the width and
      the height of what they transform. */
  lemma SwapIffQuarterTurn(transform: Code)
    requires IsValid(transform)
    ensures SwapsAxes(transform) <==>
      transform in {TRANS_ROT90, TRANS_ROT270, TRANS_MIRROR_ROT90, TRANS_MIRROR_ROT270}
  {
    ValidIffInRange(transform);
    assert transform < 8;
  }
}
