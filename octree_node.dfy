/**
 * The rendering-side state of a scene object (Turso3D/Renderer/OctreeNode.h): a `Drawable`
 * packs its boolean properties and geometry type into one flag word, remembers the frames in
 * which it was last seen, and caches its world bounding box and world transform behind dirty
 * flags; an `OctreeNode` reads them through its drawable.
 */
module Renderer {
  import opened Scene

  /** A C++ `unsigned short` frame number. */
  type uint16 = x: int | 0 <= x < 0x1_0000

  // The `Drawable::Flag` enumeration. The geometry type takes the two low bits.
  const FlagStaticGeometry: bv32 := 0x0
  const FlagSkinnedGeometry: bv32 := 0x1
  const FlagInstancedGeometry: bv32 := 0x2
  const FlagCustomGeometry: bv32 := 0x3
  const FlagGeometryTypeBits: bv32 := 0x3
  const FlagLight: bv32 := 0x4
  const FlagGeometry: bv32 := 0x8
  const FlagStatic: bv32 := 0x10
  const FlagCastShadows: bv32 := 0x20
  const FlagUpdateInvisible: bv32 := 0x40
  const FlagHasLodLevels: bv32 := 0x80
  const FlagOctreeUpdateCall: bv32 := 0x100
  const FlagWorldTransformDirty: bv32 := 0x200
  const FlagBoundingBoxDirty: bv32 := 0x400
  const FlagOctreeReinsertQueued: bv32 := 0x800

  /** The single-bit flags, in the order of the enumeration. */
  const BitFlags: seq<bv32> := [FlagLight, FlagGeometry, FlagStatic, FlagCastShadows, FlagUpdateInvisible,
                                FlagHasLodLevels, FlagOctreeUpdateCall, FlagWorldTransformDirty,
                                FlagBoundingBoxDirty, FlagOctreeReinsertQueued]

  /** A word with exactly one bit set. */
  predicate SingleBit(b: bv32)
  {
    b != 0 && b & (b - 1) == 0
  }

  /**
   * The geometry types are the four values of the two-bit mask; every other flag is one bit,
   * outside that mask and apart from all the others.
   */
  lemma FlagLayout()
    ensures FlagStaticGeometry & FlagGeometryTypeBits == FlagStaticGeometry
    ensures FlagSkinnedGeometry & FlagGeometryTypeBits == FlagSkinnedGeometry
    ensures FlagInstancedGeometry & FlagGeometryTypeBits == FlagInstancedGeometry
    ensures FlagCustomGeometry & FlagGeometryTypeBits == FlagCustomGeometry
    ensures forall i :: 0 <= i < |BitFlags| ==> SingleBit(BitFlags[i]) && BitFlags[i] & FlagGeometryTypeBits == 0
    ensures forall i, j :: 0 <= i < j < |BitFlags| ==> BitFlags[i] & BitFlags[j] == 0
  {
  }

  /** `flags` after `SetFlag(bit, enable)`: `bit` ORed in, or cleared. */
  function WithFlag(flags: bv32, bit: bv32, enable: bool): bv32
  {
    if enable then flags | bit else flags & !bit
  }

  /** `TestFlag(bit)` on a flag word. */
  predicate HasFlag(flags: bv32, bit: bv32)
  {
    flags & bit != 0
  }

  /** Setting a flag turns it on and leaves every bit outside `bit` as it was. */
  lemma SetFlagEffect(flags: bv32, bit: bv32)
    ensures bit != 0 ==> HasFlag(WithFlag(flags, bit, true), bit)
    ensures WithFlag(flags, bit, true) & !bit == flags & !bit
  {
    OrAndNot(flags, bit);
  }

  /** Clearing a flag turns it off and leaves every bit outside `bit` as it was. */
  lemma ClearFlagEffect(flags: bv32, bit: bv32)
    ensures !HasFlag(WithFlag(flags, bit, false), bit)
    ensures WithFlag(flags, bit, false) & !bit == flags & !bit
  {
    OrAndNot(flags, bit);
  }

  /** The word-level facts behind `SetFlagEffect` and `ClearFlagEffect`. */
  lemma OrAndNot(flags: bv32, bit: bv32)
    ensures bit != 0 ==> (flags | bit) & bit != 0
    ensures (flags & !bit) & bit == 0
    ensures (flags | bit) & !bit == flags & !bit && (flags & !bit) & !bit == flags & !bit
  {
  }

  /**
   * The three properties an `OctreeNode` reads from its drawable's flag word are separate
   * bits: setting or clearing one leaves the bits the other two read as they were.
   */
  lemma NodeFlagsIndependent(flags: bv32, enable: bool)
    ensures WithFlag(flags, FlagStatic, enable) & FlagCastShadows == flags & FlagCastShadows
    ensures WithFlag(flags, FlagStatic, enable) & FlagUpdateInvisible == flags & FlagUpdateInvisible
    ensures WithFlag(flags, FlagCastShadows, enable) & FlagStatic == flags & FlagStatic
    ensures WithFlag(flags, FlagCastShadows, enable) & FlagUpdateInvisible == flags & FlagUpdateInvisible
    ensures WithFlag(flags, FlagUpdateInvisible, enable) & FlagStatic == flags & FlagStatic
    ensures WithFlag(flags, FlagUpdateInvisible, enable) & FlagCastShadows == flags & FlagCastShadows
  {
  }

  /**
   * The frame `WasInView(frameNumber)` compares against: `frameNumber - 1` in 16 bits, with
   * 0 (which the renderer never uses as a frame number) replaced by 65535.
   */
  function PreviousFrame(frameNumber: uint16): (previous: uint16)
    ensures previous != 0
    ensures frameNumber >= 2 ==> previous == frameNumber - 1
    ensures frameNumber < 2 ==> previous == 0xffff
  {
    var p := (frameNumber - 1) % 0x1_0000;
    if p == 0 then 0xffff else p
  }

  /** A frame counter that wraps from 65535 to 1, skipping 0. */
  function NextFrame(frameNumber: uint16): uint16
  {
    if frameNumber == 0xffff then 1 else frameNumber + 1
  }

  /** Along a counter that skips 0, the previous frame is the one the counter came from. */
  lemma PreviousOfNextFrame(frameNumber: uint16)
    requires frameNumber != 0
    ensures PreviousFrame(NextFrame(frameNumber)) == frameNumber
  {
  }

  /** An axis-aligned box; its floating-point corners are only passed on. */
  datatype BoundingBox = BoundingBox(min: Vector3, max: Vector3)

  class Drawable {
    /** The flag word (`mutable` in the source). */
    var flags: bv32
    /** The cached world bounding box (`mutable` in the source). */
    var worldBoundingBox: BoundingBox
    var lastFrameNumber: uint16
    var lastUpdateFrameNumber: uint16
    /**
     * The owner scene node. Its cached world matrix is the one `worldTransform` points at,
     * so `*worldTransform` is `owner.worldTransform`.
     */
    var owner: SpatialNode

    /** A drawable of `owner` with flag word `flags`, never yet in view. */
    constructor (owner: SpatialNode, flags: bv32, box: BoundingBox)
      ensures this.owner == owner && this.flags == flags && worldBoundingBox == box
      ensures lastFrameNumber == 0 && lastUpdateFrameNumber == 0
    {
      this.owner := owner;
      this.flags := flags;
      worldBoundingBox := box;
      lastFrameNumber := 0;
      lastUpdateFrameNumber := 0;
    }

    /** `SetFlag(bit, enable)`. */
    method SetFlag(bit: bv32, enable: bool)
      modifies this`flags
      ensures flags == WithFlag(old(flags), bit, enable)
      ensures bit != 0 ==> (TestFlag(bit) <==> enable)
    {
      if enable {
        flags := flags | bit;
      } else {
        flags := flags & !bit;
      }
      SetFlagEffect(old(flags), bit);
      ClearFlagEffect(old(flags), bit);
    }

    /** `TestFlag(bit)`: whether any bit of `bit` is set. */
    predicate TestFlag(bit: bv32)
      reads this`flags
    {
      HasFlag(flags, bit)
    }

    /** `IsStatic()`: the `FLAG_STATIC` bit. */
    predicate IsStatic()
      reads this`flags
    {
      TestFlag(FlagStatic)
    }

    /** `InView(frameNumber)`: last seen in this frame. */
    predicate InView(frameNumber: uint16)
      reads this`lastFrameNumber
    {
      lastFrameNumber == frameNumber
    }

    /** `WasInView(frameNumber)`: last seen in the frame before. */
    predicate WasInView(frameNumber: uint16)
      reads this`lastFrameNumber
    {
      lastFrameNumber == PreviousFrame(frameNumber)
    }

    /**
     * Along the renderer's frame counter (which skips 0), a drawable marked in view in one
     * frame is exactly one that the next frame reports as in view the frame before.
     */
    lemma SeenLastFrame(frameNumber: uint16)
      requires frameNumber != 0
      ensures InView(frameNumber) <==> WasInView(NextFrame(frameNumber))
    {
      PreviousOfNextFrame(frameNumber);
    }

    /**
     * `WorldBoundingBox()`: while `FLAG_BOUNDING_BOX_DIRTY` is set, store the box the update
     * hook computes (`updated`) and clear the flag; then return the cached box.
     */
    method WorldBoundingBox(updated: BoundingBox) returns (box: BoundingBox)
      modifies this`flags, this`worldBoundingBox
      ensures box == worldBoundingBox && !TestFlag(FlagBoundingBoxDirty)
      ensures old(TestFlag(FlagBoundingBoxDirty)) ==>
                box == updated && flags == WithFlag(old(flags), FlagBoundingBoxDirty, false)
      ensures !old(TestFlag(FlagBoundingBoxDirty)) ==> box == old(worldBoundingBox) && flags == old(flags)
    {
      if TestFlag(FlagBoundingBoxDirty) {
        worldBoundingBox := updated;
        SetFlag(FlagBoundingBoxDirty, false);
      }
      box := worldBoundingBox;
    }

    /** A clean drawable transform implies a clean owner transform. */
    ghost predicate TransformSynced()
      reads this`flags, this`owner, owner`worldTransformDirty
    {
      !TestFlag(FlagWorldTransformDirty) ==> !owner.worldTransformDirty
    }

    /**
     * `WorldTransform()`: while `FLAG_WORLD_TRANSFORM_DIRTY` is set, clear it and return the
     * owner's (brought up to date) world transform; otherwise return the shared cached matrix.
     */
    method WorldTransform() returns (m: Matrix3x4)
      requires owner.Valid() && owner.Coherent()
      modifies this`flags, owner.chain`worldTransform, owner.chain`worldTransformDirty
      ensures owner.Valid() && owner.Coherent() && !TestFlag(FlagWorldTransformDirty)
      ensures old(TestFlag(FlagWorldTransformDirty)) ==>
                m == owner.World() && flags == WithFlag(old(flags), FlagWorldTransformDirty, false)
      ensures !old(TestFlag(FlagWorldTransformDirty)) ==>
                m == old(owner.worldTransform) && flags == old(flags) && unchanged(owner.chain)
      ensures old(TransformSynced()) ==> m == owner.World()
    {
      if TestFlag(FlagWorldTransformDirty) {
        SetFlag(FlagWorldTransformDirty, false);
        m := owner.WorldTransform();
      } else {
        m := owner.worldTransform;
      }
    }
  }

  /** A scene node that renders through a drawable. */
  class OctreeNode {
    /** `OctreeNodeBase::drawable`. */
    var drawable: Drawable

    constructor (drawable: Drawable)
      ensures this.drawable == drawable
    {
      this.drawable := drawable;
    }

    /** `IsStatic()`: the drawable's `FLAG_STATIC` bit. */
    predicate IsStatic()
      reads this, drawable`flags
    {
      drawable.TestFlag(FlagStatic)
    }

    /** `CastShadows()`: the drawable's `FLAG_CAST_SHADOWS` bit. */
    predicate CastShadows()
      reads this, drawable`flags
    {
      drawable.TestFlag(FlagCastShadows)
    }

    /** `UpdateInvisible()`: the drawable's `FLAG_UPDATE_INVISIBLE` bit. */
    predicate UpdateInvisible()
      reads this, drawable`flags
    {
      drawable.TestFlag(FlagUpdateInvisible)
    }

    predicate InView(frameNumber: uint16)
      reads this, drawable`lastFrameNumber
    {
      drawable.InView(frameNumber)
    }

    predicate WasInView(frameNumber: uint16)
      reads this, drawable`lastFrameNumber
    {
      drawable.WasInView(frameNumber)
    }

    /** The node's visibility tests agree along the frame counter as its drawable's do. */
    lemma SeenLastFrame(frameNumber: uint16)
      requires frameNumber != 0
      ensures InView(frameNumber) <==> WasInView(NextFrame(frameNumber))
    {
      drawable.SeenLastFrame(frameNumber);
    }

    /** `WorldBoundingBox()`: the drawable's, brought up to date. */
    method WorldBoundingBox(updated: BoundingBox) returns (box: BoundingBox)
      modifies drawable`flags, drawable`worldBoundingBox
      ensures box == drawable.worldBoundingBox && !drawable.TestFlag(FlagBoundingBoxDirty)
      ensures old(drawable.TestFlag(FlagBoundingBoxDirty)) ==>
                box == updated && drawable.flags == WithFlag(old(drawable.flags), FlagBoundingBoxDirty, false)
      ensures !old(drawable.TestFlag(FlagBoundingBoxDirty)) ==>
                box == old(drawable.worldBoundingBox) && drawable.flags == old(drawable.flags)
    {
      box := drawable.WorldBoundingBox(updated);
    }
  }
}
