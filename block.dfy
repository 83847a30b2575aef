/**
 * The block actor: a typed game piece with a world location and the two
 * reference positions its movement animations interpolate between.
 */
module Blocks {
  import opened Helpers

  /** A world-space vector (`FVector`). */
  datatype Vec = Vec(x: real, y: real, z: real) {
    function Plus(o: Vec): Vec {
      Vec(x + o.x, y + o.y, z + o.z)
    }
  }

  /** `FMath::Lerp(a, b, alpha)`. */
  function Lerp(a: real, b: real, alpha: real): (r: real)
    ensures alpha == 0.0 ==> r == a
    ensures alpha == 1.0 ==> r == b
  {
    a + alpha * (b - a)
  }

  /** For an alpha in [0, 1] the blend lies between its two end points. */
  lemma LerpBetween(a: real, b: real, alpha: real)
    requires 0.0 <= alpha <= 1.0
    ensures a <= b ==> a <= Lerp(a, b, alpha) <= b
    ensures b <= a ==> b <= Lerp(a, b, alpha) <= a
  {
    var d := b - a;
    if d >= 0.0 {
      assert 0.0 <= alpha * d <= 1.0 * d;
    } else {
      assert 1.0 * d <= alpha * d <= 0.0;
    }
  }

  /** How far apart two coordinates are. */
  function Distance(a: real, b: real): (d: real)
    ensures d >= 0.0 && (d == a - b || d == b - a)
  {
    if a - b >= 0.0 then a - b else b - a
  }

  /** The coordinate an interpolation writes: the target once `alpha` reaches 1, else the blend. */
  function Interpolated(original: real, final: real, alpha: Alpha): (r: real)
    ensures alpha.Reached() ==> r == final
    ensures alpha == Finite(0.0) ==> r == original
  {
    if alpha.Reached() then final else Lerp(original, final, alpha.value)
  }

  class Block {
    var typeId: int
    var location: Vec
    var originalPosition: Vec
    var finalPosition: Vec

    /** A block spawned at `location`; its type id is set by `InitTypeID` straight after. */
    constructor (location: Vec)
      ensures this.location == location
      ensures originalPosition == Vec(0.0, 0.0, 0.0) && finalPosition == Vec(0.0, 0.0, 0.0)
    {
      this.location := location;
      originalPosition := Vec(0.0, 0.0, 0.0);
      finalPosition := Vec(0.0, 0.0, 0.0);
    }

    method InitTypeID(id: int)
      modifies this`typeId
      ensures GetTypeID() == id
    {
      typeId := id;
    }

    function GetTypeID(): int
      reads this
    {
      typeId
    }

    /** True when the other block exists and has this block's type id. */
    function IsSameType(other: Block?): (r: bool)
      reads this, other
      ensures r <==> other != null && other.GetTypeID() == GetTypeID()
      ensures r ==> IsSameTypeID(other.GetTypeID())
    {
      other != null && typeId == other.typeId
    }

    /** True when `id` is this block's type id. */
    predicate IsSameTypeID(id: int)
      reads this
      ensures IsSameTypeID(id) <==> GetTypeID() == id
    {
      typeId == id
    }

    /**
     * Exchanges location, original position and final position with `other`;
     * the type ids stay where they are. A null `other` changes nothing.
     */
    method SwapWith(other: Block?)
      modifies this, other
      ensures other == null ==> unchanged(this)
      ensures other != null ==>
        && location == old(other.location) && other.location == old(location)
        && originalPosition == old(other.originalPosition) && other.originalPosition == old(originalPosition)
        && finalPosition == old(other.finalPosition) && other.finalPosition == old(finalPosition)
      ensures typeId == old(typeId)
      ensures other != null ==> other.typeId == old(other.typeId)
    {
      if other == null {
        return;
      }
      var tmpLocation := location;
      location := other.location;
      other.location := tmpLocation;
      originalPosition, other.originalPosition := other.originalPosition, originalPosition;
      finalPosition, other.finalPosition := other.finalPosition, finalPosition;
    }

    /**
     * Reports whether the horizontal movement is complete (`alpha >= 1`) and the
     * X coordinate to place the block at.
     */
    method InterpolateHorizontal(alpha: Alpha) returns (done: bool, coordinate: real)
      ensures done <==> alpha.Reached()
      ensures done ==> coordinate == finalPosition.x
      ensures !done ==> coordinate == Lerp(originalPosition.x, finalPosition.x, alpha.value)
    {
      if alpha.Reached() {
        return true, finalPosition.x;
      }
      coordinate := Lerp(originalPosition.x, finalPosition.x, alpha.value);
      done := false;
    }

    /** As `InterpolateHorizontal`, for the Z coordinate. */
    method InterpolateVertical(alpha: Alpha) returns (done: bool, coordinate: real)
      ensures done <==> alpha.Reached()
      ensures done ==> coordinate == finalPosition.z
      ensures !done ==> coordinate == Lerp(originalPosition.z, finalPosition.z, alpha.value)
    {
      if alpha.Reached() {
        return true, finalPosition.z;
      }
      coordinate := Lerp(originalPosition.z, finalPosition.z, alpha.value);
      done := false;
    }

    method InitOriginalPosition()
      modifies this`originalPosition
      ensures originalPosition == location
    {
      originalPosition := location;
    }

    method SetupHorizontal(coordinate: real)
      modifies this`finalPosition
      ensures finalPosition == old(finalPosition).(x := coordinate)
    {
      finalPosition := finalPosition.(x := coordinate);
    }

    method SetupVertical(coordinate: real)
      modifies this`finalPosition
      ensures finalPosition == old(finalPosition).(z := coordinate)
    {
      finalPosition := finalPosition.(z := coordinate);
    }
  }

  /** Type equality between blocks is symmetric. */
  lemma IsSameTypeSymmetric(a: Block, b: Block)
    ensures a.IsSameType(b) <==> b.IsSameType(a)
  {
  }

  /** Swapping two blocks twice restores both of them. */
  method SwapTwiceRestores(a: Block, b: Block)
    requires a != b
    modifies a, b
    ensures a.location == old(a.location) && b.location == old(b.location)
    ensures a.originalPosition == old(a.originalPosition) && b.originalPosition == old(b.originalPosition)
    ensures a.finalPosition == old(a.finalPosition) && b.finalPosition == old(b.finalPosition)
    ensures a.typeId == old(a.typeId) && b.typeId == old(b.typeId)
  {
    a.SwapWith(b);
    a.SwapWith(b);
  }
}
