/**
 * The player piece: a fixed-size stack of block slots that falls as one unit,
 * moves sideways and rotates its block order.
 */
module Piece {
  import opened Helpers
  import opened Blocks
  import opened Numeric

  /** One step of the "rotate up" input: the last slot's content moves to slot 0. */
  function RotateUp<T>(s: seq<T>): (r: seq<T>)
    ensures |r| == |s|
  {
    if |s| == 0 then s else [s[|s| - 1]] + s[..|s| - 1]
  }

  /** One step of the "rotate down" input: slot 0's content moves to the last slot. */
  function RotateDown<T>(s: seq<T>): (r: seq<T>)
    ensures |r| == |s|
  {
    if |s| == 0 then s else s[1..] + [s[0]]
  }

  /** Slot by slot, `RotateUp` takes each slot's content from the slot below, wrapping around. */
  lemma RotateUpAt<T>(s: seq<T>, i: int)
    requires 0 <= i < |s|
    ensures RotateUp(s)[i] == if i == 0 then s[|s| - 1] else s[i - 1]
  {
  }

  /** Slot by slot, `RotateDown` takes each slot's content from the slot above, wrapping around. */
  lemma RotateDownAt<T>(s: seq<T>, i: int)
    requires 0 <= i < |s|
    ensures RotateDown(s)[i] == if i == |s| - 1 then s[0] else s[i + 1]
  {
  }

  /** The two rotations undo each other. */
  lemma RotationsInverse<T>(s: seq<T>)
    ensures RotateDown(RotateUp(s)) == s
    ensures RotateUp(RotateDown(s)) == s
  {
    if |s| > 0 {
      assert RotateUp(s)[1..] == s[..|s| - 1];
      assert s[..|s| - 1] + [s[|s| - 1]] == s;
      assert RotateDown(s)[..|s| - 1] == s[1..];
      assert [s[0]] + s[1..] == s;
    }
  }

  /** Both rotations rearrange the blocks without losing or duplicating any. */
  lemma RotationsPermute<T>(s: seq<T>)
    ensures multiset(RotateUp(s)) == multiset(s)
    ensures multiset(RotateDown(s)) == multiset(s)
  {
    if |s| > 0 {
      assert s == s[..|s| - 1] + [s[|s| - 1]];
      assert s == [s[0]] + s[1..];
    }
  }

  /** No block appears twice. */
  ghost predicate Distinct(bs: seq<Block>)
  {
    forall i, j :: 0 <= i < j < |bs| ==> bs[i] != bs[j]
  }

  /**
   * The per-block loop of a vertical move: block k starts from where it is
   * and heads for `verticalPosition + k * offset`.
   */
  method PlaceVertically(bs: seq<Block>, verticalPosition: real, offset: real)
    requires Distinct(bs)
    modifies set k | 0 <= k < |bs| :: bs[k]
    ensures forall k :: 0 <= k < |bs| ==>
      && bs[k].finalPosition == old(bs[k].finalPosition).(z := verticalPosition + k as real * offset)
      && bs[k].originalPosition == old(bs[k].location)
      && bs[k].location == old(bs[k].location)
      && bs[k].typeId == old(bs[k].typeId)
  {
    var coord := verticalPosition;
    var i := 0;
    while i < |bs|
      invariant 0 <= i <= |bs|
      invariant coord == verticalPosition + i as real * offset
      invariant forall k :: 0 <= k < i ==>
        && bs[k].finalPosition == old(bs[k].finalPosition).(z := verticalPosition + k as real * offset)
        && bs[k].originalPosition == old(bs[k].location)
      invariant forall k :: i <= k < |bs| ==>
        && bs[k].finalPosition == old(bs[k].finalPosition)
        && bs[k].originalPosition == old(bs[k].originalPosition)
      invariant forall k :: 0 <= k < |bs| ==>
        && bs[k].location == old(bs[k].location)
        && bs[k].typeId == old(bs[k].typeId)
    {
      bs[i].InitOriginalPosition();
      bs[i].SetupVertical(coord);
      coord := coord + offset;
      i := i + 1;
    }
  }

  /**
   * The per-block loop of a piece tick. Each block's Z follows `valpha`; while
   * the side move is still running its X follows `halpha` (forced to 1 once
   * landed); every block is put at the interpolation vector carried over from
   * the previous block, which starts at block 0's location.
   */
  method MoveBlocks(bs: seq<Block>, valpha: Alpha, halpha: Alpha, wasSideMoving: bool) returns (landed: bool, sideMoving: bool)
    requires Distinct(bs) && |bs| > 0
    modifies set k | 0 <= k < |bs| :: bs[k]
    ensures landed <==> valpha.Reached()
    ensures forall k :: 0 <= k < |bs| ==>
      && bs[k].originalPosition == old(bs[k].originalPosition)
      && bs[k].finalPosition == old(bs[k].finalPosition)
      && bs[k].typeId == old(bs[k].typeId)
    ensures forall k :: 0 <= k < |bs| ==>
      && bs[k].location.z == Interpolated(bs[k].originalPosition.z, bs[k].finalPosition.z, valpha)
      && bs[k].location.y == old(bs[0].location.y)
    ensures !wasSideMoving ==>
      && !sideMoving
      && forall k :: 0 <= k < |bs| ==> bs[k].location.x == old(bs[0].location.x)
    ensures wasSideMoving ==> (sideMoving <==> !landed && !halpha.Reached())
    ensures wasSideMoving && sideMoving ==>
      forall k :: 0 <= k < |bs| ==>
        bs[k].location.x == Lerp(bs[k].originalPosition.x, bs[k].finalPosition.x, halpha.value)
    ensures wasSideMoving && !sideMoving ==>
      forall k :: 0 <= k < |bs| ==> bs[k].location.x == bs[0].finalPosition.x
  {
    landed := false;
    sideMoving := wasSideMoving;
    var interp := bs[0].location;
    var i := 0;
    while i < |bs|
      invariant 0 <= i <= |bs|
      invariant forall k :: 0 <= k < |bs| ==>
        && bs[k].originalPosition == old(bs[k].originalPosition)
        && bs[k].finalPosition == old(bs[k].finalPosition)
        && bs[k].typeId == old(bs[k].typeId)
      invariant forall k :: i <= k < |bs| ==> bs[k].location == old(bs[k].location)
      invariant i > 0 ==> (landed <==> valpha.Reached())
      invariant interp.y == old(bs[0].location.y)
      invariant i == 0 ==> interp == old(bs[0].location) && sideMoving == wasSideMoving
      invariant forall k :: 0 <= k < i ==>
        && bs[k].location.z == Interpolated(bs[k].originalPosition.z, bs[k].finalPosition.z, valpha)
        && bs[k].location.y == old(bs[0].location.y)
      invariant !wasSideMoving ==>
        && !sideMoving && interp.x == old(bs[0].location.x)
        && forall k :: 0 <= k < i ==> bs[k].location.x == old(bs[0].location.x)
      invariant wasSideMoving && i > 0 ==> (sideMoving <==> !landed && !halpha.Reached())
      invariant wasSideMoving && sideMoving ==>
        forall k :: 0 <= k < i ==>
          bs[k].location.x == Lerp(bs[k].originalPosition.x, bs[k].finalPosition.x, halpha.value)
      invariant wasSideMoving && !sideMoving ==>
        && i > 0 && interp.x == bs[0].finalPosition.x
        && forall k :: 0 <= k < i ==> bs[k].location.x == bs[0].finalPosition.x
    {
      var block := bs[i];
      var z;
      landed, z := block.InterpolateVertical(valpha);
      interp := interp.(z := z);
      if sideMoving {
        var hdone, x := block.InterpolateHorizontal(if landed then Finite(1.0) else halpha);
        interp := interp.(x := x);
        if hdone {
          sideMoving := false;
        }
      }
      block.location := interp;
      i := i + 1;
    }
  }

  class PlayerPiece {
    var blocks: array<Block?>
    var currentColumn: int
    var verticalTime: Timing
    var horizontalTime: Timing
    var isSideMoving: bool
    var hasLanded: bool
    var vertAlphaMultiplier: real
    ghost var Repr: set<object>

    ghost predicate Valid()
      reads this, blocks
    {
      && this in Repr && blocks in Repr
      && forall i :: 0 <= i < blocks.Length && blocks[i] != null ==> blocks[i] in Repr
    }

    /** Every slot holds a block, and no block sits in two slots. */
    ghost predicate Spawned()
      reads this, blocks
    {
      && (forall i :: 0 <= i < blocks.Length ==> blocks[i] != null)
      && (forall i, j :: 0 <= i < j < blocks.Length ==> blocks[i] != blocks[j])
    }

    /** A new piece: no slots yet, not side-moving, not landed, vertical multiplier 1. */
    constructor ()
      ensures Valid() && fresh(Repr)
      ensures blocks.Length == 0
      ensures !isSideMoving && !hasLanded && vertAlphaMultiplier == 1.0
      ensures verticalTime == Timing.Default() && horizontalTime == Timing.Default()
    {
      blocks := new Block?[0];
      currentColumn := 0;
      verticalTime := Timing.Default();
      horizontalTime := Timing.Default();
      isSideMoving := false;
      hasLanded := false;
      vertAlphaMultiplier := 1.0;
      Repr := {this, blocks};
    }

    /** Replaces the slots by `size` empty ones (none for a negative size). */
    method InitArray(size: int)
      requires Valid()
      modifies this
      ensures Valid() && fresh(blocks) && Repr == old(Repr) + {blocks}
      ensures blocks.Length == if size > 0 then size else 0
      ensures forall i :: 0 <= i < blocks.Length ==> blocks[i] == null
      ensures currentColumn == old(currentColumn) && verticalTime == old(verticalTime)
      ensures horizontalTime == old(horizontalTime) && vertAlphaMultiplier == old(vertAlphaMultiplier)
      ensures isSideMoving == old(isSideMoving) && hasLanded == old(hasLanded)
    {
      blocks := new Block?[if size > 0 then size else 0](_ => null);
      Repr := Repr + {blocks};
    }

    /**
     * Fills slot i with `spawned[i]`, in index order, and clears the landed and
     * side-moving flags. `spawned` holds what the spawning callback returned for
     * each index.
     */
    method SpawnPiece(spawned: seq<Block>)
      requires Valid() && |spawned| == blocks.Length
      requires forall i, j :: 0 <= i < j < |spawned| ==> spawned[i] != spawned[j]
      modifies this, blocks
      ensures Valid() && Spawned() && Repr == old(Repr) + set b | b in spawned :: b as object
      ensures blocks == old(blocks) && blocks[..] == spawned
      ensures !hasLanded && !isSideMoving
      ensures currentColumn == old(currentColumn) && verticalTime == old(verticalTime)
      ensures horizontalTime == old(horizontalTime) && vertAlphaMultiplier == old(vertAlphaMultiplier)
    {
      hasLanded := false;
      Repr := Repr + set b | b in spawned :: b as object;
      assert forall k :: 0 <= k < |spawned| ==> spawned[k] in Repr by {
        forall k | 0 <= k < |spawned| ensures spawned[k] in Repr {
          assert spawned[k] in spawned;
        }
      }
      var i := 0;
      while i < blocks.Length
        invariant 0 <= i <= blocks.Length
        invariant Valid()
        invariant forall k :: 0 <= k < |spawned| ==> spawned[k] in Repr
        invariant forall k :: 0 <= k < i ==> blocks[k] == spawned[k]
        invariant forall k :: i <= k < blocks.Length ==> blocks[k] == old(blocks[k])
        modifies blocks
      {
        blocks[i] := spawned[i];
        i := i + 1;
      }
      assert blocks[..] == spawned;
      isSideMoving := false;
    }

    /** Empties every slot without changing the number of slots. */
    method Clear()
      requires Valid()
      modifies blocks
      ensures Valid()
      ensures forall i :: 0 <= i < blocks.Length ==> blocks[i] == null
    {
      var i := 0;
      while i < blocks.Length
        invariant 0 <= i <= blocks.Length
        invariant forall k :: 0 <= k < i ==> blocks[k] == null
        invariant forall k :: i <= k < blocks.Length ==> blocks[k] == old(blocks[k])
      {
        blocks[i] := null;
        i := i + 1;
      }
    }

    method SetCurrentColumn(column: int)
      modifies this`currentColumn
      ensures GetCurrentColumn() == column
    {
      currentColumn := column;
    }

    function GetCurrentColumn(): int
      reads this
    {
      currentColumn
    }

    function HasLanded(): bool
      reads this
    {
      hasLanded
    }

    method SetVerticalAlphaMultiplier(multiplier: real)
      modifies this`vertAlphaMultiplier
      ensures vertAlphaMultiplier == multiplier
    {
      vertAlphaMultiplier := multiplier;
    }

    /** Distance along X from block 0 to `dest`. */
    function GetHorizDiff(dest: real): (d: real)
      requires Valid() && blocks.Length > 0 && blocks[0] != null
      reads Repr
      ensures d >= 0.0
      ensures d == dest - blocks[0].location.x || d == blocks[0].location.x - dest
    {
      var x := blocks[0].location.x;
      if dest - x >= 0.0 then dest - x else x - dest
    }

    /** Distance along Z from block 0 to `dest`. */
    function GetVertDiff(dest: real): (d: real)
      requires Valid() && blocks.Length > 0 && blocks[0] != null
      reads Repr
      ensures d >= 0.0
      ensures d == dest - blocks[0].location.z || d == blocks[0].location.z - dest
    {
      var z := blocks[0].location.z;
      if dest - z >= 0.0 then dest - z else z - dest
    }

    /** Block 0's height, converted to an integer by truncation toward zero. */
    function GetPieceZ(): (z: int)
      requires Valid() && blocks.Length > 0 && blocks[0] != null
      reads Repr
      ensures blocks[0].location.z >= 0.0 ==> z as real <= blocks[0].location.z < z as real + 1.0
      ensures blocks[0].location.z < 0.0 ==> z as real - 1.0 < blocks[0].location.z <= z as real
    {
      TruncToInt(blocks[0].location.z)
    }

    /**
     * Exchanges the blocks of slots `a` and `b` together with their positions,
     * so the position held at each slot index stays where it was.
     */
    method SwapBlocks(a: int, b: int)
      requires Valid() && Spawned()
      requires 0 <= a < blocks.Length && 0 <= b < blocks.Length
      modifies blocks, blocks[a], blocks[b]
      ensures Valid() && Spawned()
      ensures blocks[..] == old(blocks[..])[a := old(blocks[b])][b := old(blocks[a])]
      ensures forall i :: 0 <= i < blocks.Length ==>
        && blocks[i].location == old(blocks[i].location)
        && blocks[i].originalPosition == old(blocks[i].originalPosition)
        && blocks[i].finalPosition == old(blocks[i].finalPosition)
      ensures forall i :: 0 <= i < blocks.Length ==> old(blocks[i]).typeId == old(blocks[i].typeId)
    {
      blocks[a].SwapWith(blocks[b]);
      blocks[a], blocks[b] := blocks[b], blocks[a];
    }

    /** Rotates the block order up by one: slot 0 receives the last block. */
    method ShiftUp()
      requires Valid() && Spawned()
      modifies Repr
      ensures Valid() && Spawned() && Repr == old(Repr) && blocks == old(blocks)
      ensures blocks[..] == RotateUp(old(blocks[..]))
      ensures forall i :: 0 <= i < blocks.Length ==>
        && blocks[i].location == old(blocks[i].location)
        && blocks[i].originalPosition == old(blocks[i].originalPosition)
        && blocks[i].finalPosition == old(blocks[i].finalPosition)
      ensures forall i :: 0 <= i < blocks.Length ==> old(blocks[i]).typeId == old(blocks[i].typeId)
      ensures unchanged(this)
    {
      ghost var s := blocks[..];
      var n := blocks.Length;
      var i := n - 1;
      while i > 0
        invariant 0 <= i <= n || (n == 0 && i == -1)
        invariant Valid() && Spawned() && Repr == old(Repr) && unchanged(this)
        invariant n > 0 ==> blocks[..] == s[..i] + [s[n - 1]] + s[i..n - 1]
        invariant forall k :: 0 <= k < n ==>
          && blocks[k].location == old(blocks[k].location)
          && blocks[k].originalPosition == old(blocks[k].originalPosition)
          && blocks[k].finalPosition == old(blocks[k].finalPosition)
        invariant forall k :: 0 <= k < n ==> old(blocks[k]).typeId == old(blocks[k].typeId)
      {
        SwapBlocks(i, i - 1);
        i := i - 1;
      }
    }

    /** Rotates the block order down by one: the last slot receives block 0. */
    method ShiftDown()
      requires Valid() && Spawned()
      modifies Repr
      ensures Valid() && Spawned() && Repr == old(Repr) && blocks == old(blocks)
      ensures blocks[..] == RotateDown(old(blocks[..]))
      ensures forall i :: 0 <= i < blocks.Length ==>
        && blocks[i].location == old(blocks[i].location)
        && blocks[i].originalPosition == old(blocks[i].originalPosition)
        && blocks[i].finalPosition == old(blocks[i].finalPosition)
      ensures forall i :: 0 <= i < blocks.Length ==> old(blocks[i]).typeId == old(blocks[i].typeId)
      ensures unchanged(this)
    {
      ghost var s := blocks[..];
      var n := blocks.Length;
      var i := 0;
      while i < n - 1
        invariant 0 <= i <= n || (n == 0 && i == 0)
        invariant Valid() && Spawned() && Repr == old(Repr) && unchanged(this)
        invariant n > 0 ==> i < n && blocks[..] == s[1..i + 1] + [s[0]] + s[i + 1..]
        invariant forall k :: 0 <= k < n ==>
          && blocks[k].location == old(blocks[k].location)
          && blocks[k].originalPosition == old(blocks[k].originalPosition)
          && blocks[k].finalPosition == old(blocks[k].finalPosition)
        invariant forall k :: 0 <= k < n ==> old(blocks[k]).typeId == old(blocks[k].typeId)
      {
        SwapBlocks(i, i + 1);
        i := i + 1;
      }
    }
  
    /** Starts a horizontal movement: every block gets the same final X. */
    method SideMove(horizontalPosition: real, timeLimit: real)
      requires Valid() && Spawned()
      modifies Repr
      ensures Valid() && Spawned() && Repr == old(Repr) && blocks == old(blocks) && blocks[..] == old(blocks[..])
      ensures isSideMoving && horizontalTime == old(horizontalTime).Set(timeLimit)
      ensures forall i :: 0 <= i < blocks.Length ==>
        && blocks[i].finalPosition == old(blocks[i].finalPosition).(x := horizontalPosition)
        && blocks[i].location == old(blocks[i].location)
        && blocks[i].originalPosition == old(blocks[i].originalPosition)
        && blocks[i].typeId == old(blocks[i].typeId)
      ensures verticalTime == old(verticalTime) && hasLanded == old(hasLanded)
      ensures currentColumn == old(currentColumn) && vertAlphaMultiplier == old(vertAlphaMultiplier)
    {
      horizontalTime := horizontalTime.Set(timeLimit);
      isSideMoving := true;
      var i := 0;
      while i < blocks.Length
        invariant 0 <= i <= blocks.Length
        invariant forall k :: 0 <= k < i ==> blocks[k].finalPosition == old(blocks[k].finalPosition).(x := horizontalPosition)
        invariant forall k :: i <= k < blocks.Length ==> blocks[k].finalPosition == old(blocks[k].finalPosition)
        invariant forall k :: 0 <= k < blocks.Length ==>
          && blocks[k].location == old(blocks[k].location)
          && blocks[k].originalPosition == old(blocks[k].originalPosition)
          && blocks[k].typeId == old(blocks[k].typeId)
        modifies set k | 0 <= k < blocks.Length :: blocks[k]
      {
        blocks[i].SetupHorizontal(horizontalPosition);
        i := i + 1;
      }
    }

    /**
     * Starts a vertical movement: block i heads for `verticalPosition` plus i
     * times the current spacing between blocks 0 and 1, starting from where it is.
     */
    method VerticalMove(verticalPosition: real, timeLimit: real)
      requires Valid() && Spawned() && blocks.Length >= 2
      modifies Repr
      ensures Valid() && Spawned() && Repr == old(Repr) && blocks == old(blocks) && blocks[..] == old(blocks[..])
      ensures verticalTime == old(verticalTime).Set(timeLimit)
      ensures forall i :: 0 <= i < blocks.Length ==>
        && blocks[i].finalPosition == old(blocks[i].finalPosition).(z := verticalPosition
             + i as real * (old(blocks[1].location.z) - old(blocks[0].location.z)))
        && blocks[i].originalPosition == old(blocks[i].location)
        && blocks[i].location == old(blocks[i].location)
        && blocks[i].typeId == old(blocks[i].typeId)
      ensures horizontalTime == old(horizontalTime) && isSideMoving == old(isSideMoving) && hasLanded == old(hasLanded)
      ensures currentColumn == old(currentColumn) && vertAlphaMultiplier == old(vertAlphaMultiplier)
    {
      var offset := blocks[1].location.z - blocks[0].location.z;
      verticalTime := verticalTime.Set(timeLimit);
      PlaceVertically(blocks[..], verticalPosition, offset);
    }

    /**
     * Advances the piece by `dt` seconds. All blocks share one vertical
     * progress (scaled by the vertical multiplier); the piece has landed exactly
     * when it reaches 1. A side movement in progress is forced to finish once
     * the piece lands. Every block is placed at block 0's Y.
     */
    method Tick(dt: real)
      requires Valid() && Spawned() && blocks.Length > 0
      requires verticalTime.limit != 0.0 || verticalTime.elapsed + dt * vertAlphaMultiplier > 0.0
      requires isSideMoving ==> horizontalTime.limit != 0.0 || horizontalTime.elapsed + dt > 0.0
      modifies Repr
      ensures Valid() && Spawned() && Repr == old(Repr) && blocks == old(blocks) && blocks[..] == old(blocks[..])
      ensures verticalTime == old(verticalTime).Advance(dt * old(vertAlphaMultiplier))
      ensures horizontalTime == if old(isSideMoving) then old(horizontalTime).Advance(dt) else old(horizontalTime)
      ensures hasLanded <==> verticalTime.Progress().Reached()
      ensures currentColumn == old(currentColumn) && vertAlphaMultiplier == old(vertAlphaMultiplier)
      ensures forall i :: 0 <= i < blocks.Length ==>
        && blocks[i].originalPosition == old(blocks[i].originalPosition)
        && blocks[i].finalPosition == old(blocks[i].finalPosition)
        && blocks[i].typeId == old(blocks[i].typeId)
      ensures forall i :: 0 <= i < blocks.Length ==>
        && blocks[i].location.z == Interpolated(blocks[i].originalPosition.z, blocks[i].finalPosition.z, verticalTime.Progress())
        && blocks[i].location.y == old(blocks[0].location.y)
      ensures !old(isSideMoving) ==>
        && !isSideMoving
        && forall i :: 0 <= i < blocks.Length ==> blocks[i].location.x == old(blocks[0].location.x)
      ensures old(isSideMoving) ==> (isSideMoving <==> !hasLanded && !horizontalTime.Progress().Reached())
      ensures old(isSideMoving) && isSideMoving ==>
        forall i :: 0 <= i < blocks.Length ==>
          blocks[i].location.x == Lerp(blocks[i].originalPosition.x, blocks[i].finalPosition.x, horizontalTime.Progress().value)
      ensures old(isSideMoving) && !isSideMoving ==>
        forall i :: 0 <= i < blocks.Length ==> blocks[i].location.x == blocks[0].finalPosition.x
    {
      var halpha := Finite(0.0);
      if isSideMoving {
        var h := horizontalTime.Update(dt);
        horizontalTime, halpha := h.0, h.1;
      }
      var v := verticalTime.Update(dt * vertAlphaMultiplier);
      verticalTime := v.0;
      var valpha := v.1;
      var landed, sideMoving := MoveBlocks(blocks[..], valpha, halpha, isSideMoving);
      hasLanded, isSideMoving := landed, sideMoving;
    }
  }
}
