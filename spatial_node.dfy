/**
 * The lazily cached world transform of a scene node (Turso3D/Scene/SpatialNode.h): a node
 * keeps its parent-space position, rotation and scale, and a world matrix that is recomputed,
 * through the spatial parents first, only while its dirty flag is set.
 */
module Scene {

  /** A parent-space position or scale; the floating-point values are only passed on. */
  datatype Vector3 = Vector3(x: real, y: real, z: real)

  /** A parent-space rotation; its values are only passed on. */
  datatype Quaternion = Quaternion(w: real, x: real, y: real, z: real)

  /**
   * A 3x4 transform matrix, kept as the term that built it: `Matrix3x4(position, rotation,
   * scale)` or the product of two matrices. The matrix arithmetic is not modelled, so two
   * matrices are equal exactly when they are built alike.
   */
  datatype Matrix3x4 =
    | FromTransform(position: Vector3, rotation: Quaternion, scale: Vector3)
    | Product(left: Matrix3x4, right: Matrix3x4)

  /** The product, left to right, of a non-empty sequence of matrices. */
  function ComposeAll(ms: seq<Matrix3x4>): Matrix3x4
    requires |ms| >= 1
  {
    if |ms| == 1 then ms[0] else Product(ComposeAll(ms[..|ms| - 1]), ms[|ms| - 1])
  }

  class SpatialNode {
    /** `Node::Parent()`: the parent in the scene hierarchy, whether spatial or not. */
    var parent: SpatialNode?
    /** `FLAG_SPATIALPARENT`: the parent is a spatial node. */
    var spatialParent: bool
    /** `FLAG_WORLDTRANSFORMDIRTY`: the cached world transform is out of date. */
    var worldTransformDirty: bool
    var position: Vector3
    var rotation: Quaternion
    var scale: Vector3
    /** The cached world transform (`mutable` in the source). */
    var worldTransform: Matrix3x4

    /** This node and its spatial ancestors. */
    ghost var chain: set<SpatialNode>
    /** The length of the spatial-parent chain above this node, which makes it finite. */
    ghost var depth: nat

    /** The spatial-parent chain is finite and acyclic, and `chain` holds it. */
    ghost predicate Valid()
      reads this`parent, this`spatialParent, this`chain, this`depth
      reads chain`parent, chain`spatialParent, chain`chain, chain`depth
      decreases depth
    {
      && this in chain
      && (spatialParent ==>
            && parent != null && parent in chain && parent.chain <= chain && this !in parent.chain
            && parent.depth < depth && parent.Valid())
    }

    /** A node without a spatial parent: the root of its own chain. */
    constructor (position: Vector3, rotation: Quaternion, scale: Vector3)
      ensures Valid() && chain == {this} && !spatialParent && parent == null && worldTransformDirty
      ensures this.position == position && this.rotation == rotation && this.scale == scale
    {
      parent := null;
      spatialParent := false;
      worldTransformDirty := true;
      this.position := position;
      this.rotation := rotation;
      this.scale := scale;
      worldTransform := FromTransform(position, rotation, scale);
      chain := {this};
      depth := 0;
    }

    /** `Transform()`: the parent-space transform, `Matrix3x4(position, rotation, scale)`. */
    function Transform(): Matrix3x4
      reads this`position, this`rotation, this`scale
    {
      FromTransform(position, rotation, scale)
    }

    /**
     * `SpatialParent()`: the parent while it is a spatial node, else null. A spatial parent
     * is on the node's chain, valid, and closer to the top of it.
     */
    function SpatialParent(): (p: SpatialNode?)
      requires Valid()
      reads this`parent, this`spatialParent, this`chain, this`depth
      reads chain`parent, chain`spatialParent, chain`chain, chain`depth
      ensures p != null <==> spatialParent
      ensures p != null ==> p == parent && p in chain && p.chain <= chain && this !in p.chain && p.depth < depth && p.Valid()
    {
      if spatialParent then parent else null
    }

    /**
     * The world transform the node stands for: the parent's world transform times the local
     * transform under a spatial parent, the local transform alone otherwise.
     */
    ghost function World(): Matrix3x4
      requires Valid()
      reads this`parent, this`spatialParent, this`chain, this`depth, this`position, this`rotation, this`scale
      reads chain`parent, chain`spatialParent, chain`chain, chain`depth, chain`position, chain`rotation, chain`scale
      decreases depth
    {
      var p := SpatialParent();
      if p != null then Product(p.World(), Transform()) else Transform()
    }

    /** The local transforms of the chain, from the topmost spatial ancestor down to this node. */
    ghost function LocalTransforms(): (ms: seq<Matrix3x4>)
      requires Valid()
      reads this`parent, this`spatialParent, this`chain, this`depth, this`position, this`rotation, this`scale
      reads chain`parent, chain`spatialParent, chain`chain, chain`depth, chain`position, chain`rotation, chain`scale
      ensures |ms| >= 1 && ms[|ms| - 1] == Transform()
      decreases depth
    {
      if spatialParent then parent.LocalTransforms() + [Transform()] else [Transform()]
    }

    /**
     * The world transform is the product of the local transforms of the chain, topmost
     * ancestor first: the recursion through parents composes them in that order.
     */
    lemma {:induction false} WorldIsChainProduct()
      requires Valid()
      ensures World() == ComposeAll(LocalTransforms())
      decreases depth
    {
      if spatialParent {
        parent.WorldIsChainProduct();
        var ms := LocalTransforms();
        assert ms[..|ms| - 1] == parent.LocalTransforms();
      }
    }

    /** Every clean cache on the chain holds the world transform of its node. */
    ghost predicate Coherent()
      requires Valid()
      reads this`parent, this`spatialParent, this`chain, this`depth, this`position, this`rotation, this`scale
      reads chain`parent, chain`spatialParent, chain`chain, chain`depth, chain`position, chain`rotation, chain`scale
      reads this`worldTransform, this`worldTransformDirty, chain`worldTransform, chain`worldTransformDirty
      decreases depth
    {
      && (!worldTransformDirty ==> worldTransform == World())
      && (spatialParent ==> parent.Coherent())
    }

    /**
     * `WorldTransform()`: a dirty node first brings its spatial parent up to date (which
     * recurses up the chain as far as it is dirty), then caches the parent's world transform
     * times its own transform, or its own transform alone, and clears its dirty flag. A clean
     * node returns the cache and changes nothing.
     */
    method WorldTransform() returns (m: Matrix3x4)
      requires Valid() && Coherent()
      modifies chain`worldTransform, chain`worldTransformDirty
      decreases depth
      ensures Valid() && Coherent()
      ensures m == World() && m == worldTransform && !worldTransformDirty
      ensures !old(worldTransformDirty) ==> m == old(worldTransform) && unchanged(chain)
      ensures old(worldTransformDirty) && spatialParent ==> !parent.worldTransformDirty
    {
      if worldTransformDirty {
        var p := SpatialParent();
        if p != null {
          var parentWorld := p.WorldTransform();
          worldTransform := Product(parentWorld, Transform());
        } else {
          worldTransform := Transform();
        }
        worldTransformDirty := false;
      }
      m := worldTransform;
    }
  }
}
