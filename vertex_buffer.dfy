/**
 * Vertex buffer bookkeeping (Turso3D/Graphics/VertexBuffer.cpp): the layout of a vertex
 * (element offsets and the vertex size), the vertex attributes a buffer provides, the range
 * check of an update, and the file-static record of what is bound to the GL context, which
 * `Bind` consults to skip redundant calls.
 *
 * A 32-bit attribute mask is modelled as the set of its bit positions: `&`, `|` and `& ~` are
 * intersection, union and difference. The GL calls are appended to a log in the order the
 * source makes them.
 */
module Graphics {
  import opened Wrappers

  /** An element type, by its position in the enumeration (int, float, 2-, 3-, 4-vector, 4 bytes). */
  type ElementType = t: nat | t < 6

  /** An element semantic, by its position in the enumeration. */
  type ElementSemantic = s: nat | s < 7

  /** `baseAttributeIndex`: the first vertex attribute of each semantic. */
  const BaseAttributeIndex: seq<nat> := [0, 1, 2, 3, 4, 10, 11]

  /** `elementGLSizes`: components per element type. */
  const ElementGLSizes: seq<nat> := [1, 1, 2, 3, 4, 4]

  /** Bytes per component of each element type: 4 for int and float, 1 for the byte vector. */
  const ComponentBytes: seq<nat> := [4, 4, 4, 4, 4, 1]

  /** `ElementTypeSize`: bytes of one element of type `t`. */
  function ElementTypeSize(t: ElementType): (size: nat)
    ensures size > 0 && size % 4 == 0
  {
    ElementGLSizes[t] * ComponentBytes[t]
  }

  datatype VertexElement = VertexElement(elementType: ElementType, semantic: ElementSemantic, index: nat, offset: nat)

  /** `baseAttributeIndex[semantic] + index`: the vertex attribute an element feeds. */
  function AttributeIndex(e: VertexElement): nat
  {
    BaseAttributeIndex[e.semantic] + e.index
  }

  /** The attribute of every element is a bit position of a 32-bit mask. */
  predicate AttributesFit(elements: seq<VertexElement>)
  {
    forall k :: 0 <= k < |elements| ==> AttributeIndex(elements[k]) < 32
  }

  /** The attributes the elements feed, gathered one element at a time. */
  function AttributeMask(elements: seq<VertexElement>): set<nat>
  {
    if elements == [] then {}
    else AttributeMask(elements[..|elements| - 1]) + {AttributeIndex(elements[|elements| - 1])}
  }

  /** The mask holds the attribute of every element and nothing else. */
  lemma {:induction false} AttributeMaskMembers(elements: seq<VertexElement>)
    ensures forall a :: a in AttributeMask(elements) <==> exists k :: 0 <= k < |elements| && AttributeIndex(elements[k]) == a
  {
    if elements != [] {
      var init := elements[..|elements| - 1];
      AttributeMaskMembers(init);
      forall a | exists k :: 0 <= k < |elements| && AttributeIndex(elements[k]) == a
        ensures a in AttributeMask(elements)
      {
        var k :| 0 <= k < |elements| && AttributeIndex(elements[k]) == a;
        if k < |init| {
          assert init[k] == elements[k];
        }
      }
      forall a | a in AttributeMask(init)
        ensures exists k :: 0 <= k < |elements| && AttributeIndex(elements[k]) == a
      {
        var k :| 0 <= k < |init| && AttributeIndex(init[k]) == a;
        assert elements[k] == init[k];
      }
    }
  }

  /** Bytes of the elements together. */
  function TotalSize(elements: seq<VertexElement>): nat
  {
    if elements == [] then 0 else TotalSize(elements[..|elements| - 1]) + ElementTypeSize(elements[|elements| - 1].elementType)
  }

  /** The elements laid out one after another: each one's offset is the size of those before it. */
  function WithOffsets(elements: seq<VertexElement>): (laid: seq<VertexElement>)
    ensures |laid| == |elements|
  {
    seq(|elements|, k requires 0 <= k < |elements| => elements[k].(offset := TotalSize(elements[..k])))
  }

  /**
   * The layout packs the elements: the first starts at 0, each next one starts where the one
   * before ends, and the last ends at the vertex size.
   */
  lemma {:induction false} OffsetsPack(elements: seq<VertexElement>)
    ensures var laid := WithOffsets(elements);
      && (|elements| > 0 ==> laid[0].offset == 0)
      && (forall k :: 0 <= k < |elements| - 1 ==>
            laid[k + 1].offset == laid[k].offset + ElementTypeSize(elements[k].elementType))
      && (|elements| > 0 ==>
            laid[|elements| - 1].offset + ElementTypeSize(elements[|elements| - 1].elementType) == TotalSize(elements))
  {
    var laid := WithOffsets(elements);
    forall k | 0 <= k < |elements| - 1
      ensures laid[k + 1].offset == laid[k].offset + ElementTypeSize(elements[k].elementType)
    {
      assert elements[..k + 1][..k] == elements[..k];
    }
    if |elements| > 0 {
      assert elements[..|elements|] == elements;
      assert elements[..0] == [];
    }
  }

  /** One more element adds its size. */
  lemma TotalSizeStep(elements: seq<VertexElement>, i: nat)
    requires i < |elements|
    ensures TotalSize(elements[..i + 1]) == TotalSize(elements[..i]) + ElementTypeSize(elements[i].elementType)
  {
    assert elements[..i + 1][..i] == elements[..i];
  }

  /** One more element adds its attribute. */
  lemma MaskStep(elements: seq<VertexElement>, i: nat)
    requires i < |elements|
    ensures AttributeMask(elements[..i + 1]) == AttributeMask(elements[..i]) + {AttributeIndex(elements[i])}
  {
    assert elements[..i + 1][..i] == elements[..i];
  }

  /** One more element adds its calls. */
  lemma CallsStep(elements: seq<VertexElement>, i: nat, mask: set<nat>, bound: set<nat>, vertexSize: nat)
    requires i < |elements|
    ensures AttributeCalls(elements[..i + 1], mask, bound, vertexSize)
            == AttributeCalls(elements[..i], mask, bound, vertexSize) + ElementCalls(elements[i], mask, bound, vertexSize)
  {
    assert elements[..i + 1][..i] == elements[..i];
  }

  /** One step of `Bind`'s element loop, from the attributes and calls of the elements before `i`. */
  lemma PointStep(elements: seq<VertexElement>, i: nat, mask: set<nat>, bound: set<nat>, vertexSize: nat,
                  used: set<nat>, log: seq<GlCall>)
    requires i < |elements|
    requires used == AttributeMask(elements[..i]) * mask && log == AttributeCalls(elements[..i], mask, bound, vertexSize)
    ensures var e := elements[i];
      var a := AttributeIndex(e);
      var pointer := VertexAttribPointer(a, ElementGLSizes[e.elementType], e.elementType, vertexSize, e.offset);
      && AttributeMask(elements[..i + 1]) * mask == (if a in mask then used + {a} else used)
      && AttributeCalls(elements[..i + 1], mask, bound, vertexSize)
         == if a !in mask then log else if a in bound then log + [pointer] else log + [EnableVertexAttribArray(a)] + [pointer]
  {
    MaskStep(elements, i);
    CallsStep(elements, i, mask, bound, vertexSize);
  }

  /**
   * Elements of the same types feeding the same attributes, whatever their offsets, have the
   * same total size and the same mask.
   */
  lemma {:induction false} SameShape(a: seq<VertexElement>, b: seq<VertexElement>)
    requires |a| == |b|
    requires forall k :: 0 <= k < |a| ==> a[k].elementType == b[k].elementType && AttributeIndex(a[k]) == AttributeIndex(b[k])
    ensures TotalSize(a) == TotalSize(b) && AttributeMask(a) == AttributeMask(b)
  {
    if a != [] {
      SameShape(a[..|a| - 1], b[..|b| - 1]);
    }
  }

  /** Laying out changes offsets only, so the vertex size, the mask and their range stay the same. */
  lemma LayoutKeepsShape(elements: seq<VertexElement>)
    ensures TotalSize(WithOffsets(elements)) == TotalSize(elements)
    ensures AttributeMask(WithOffsets(elements)) == AttributeMask(elements)
    ensures AttributesFit(elements) ==> AttributesFit(WithOffsets(elements))
  {
    SameShape(elements, WithOffsets(elements));
  }

  /** A laid-out vertex is laid out again the same way. */
  lemma LayoutIdempotent(elements: seq<VertexElement>)
    ensures WithOffsets(WithOffsets(elements)) == WithOffsets(elements)
  {
    var laid := WithOffsets(elements);
    forall k | 0 <= k < |elements|
      ensures WithOffsets(laid)[k] == laid[k]
    {
      SameShape(elements[..k], laid[..k]);
    }
  }

  /** Elements that fit a 32-bit mask give a mask of bit positions. */
  lemma MaskFits(elements: seq<VertexElement>)
    requires AttributesFit(elements)
    ensures forall a :: a in AttributeMask(elements) ==> a < 32
  {
    AttributeMaskMembers(elements);
  }

  /** Values of a C++ `size_t` (64 bits). */
  type size_t = x: nat | x < 0x1_0000_0000_0000_0000

  /**
   * `SetData`'s range check as written: `firstVertex + numVertices_ > numVertices` refuses,
   * with the sum taken in `size_t`, so it wraps around modulo 2^64.
   */
  function RangeCheckAsWritten(firstVertex: size_t, count: size_t, numVertices: nat): bool
  {
    (firstVertex + count) % 0x1_0000_0000_0000_0000 <= numVertices
  }

  /**
   * The wrap-around lets a range through that starts past the last vertex: from vertex
   * 2^64 - 1, one vertex of a 10-vertex buffer.
   */
  lemma RangeCheckWraps()
    ensures RangeCheckAsWritten(0xffff_ffff_ffff_ffff, 1, 10) && !RangeCheck(0xffff_ffff_ffff_ffff, 1, 10)
  {
  }

  /**
   * The range check without the wrap-around, written as it can be in `size_t`: the first
   * vertex is in the buffer and the count fits in what remains.
   */
  function RangeCheck(firstVertex: size_t, count: size_t, numVertices: nat): (inRange: bool)
    ensures inRange <==> firstVertex + count <= numVertices
  {
    firstVertex <= numVertices && count <= numVertices - firstVertex
  }

  /** The two checks agree on every range whose end does not wrap around. */
  lemma RangeCheckAgrees(firstVertex: size_t, count: size_t, numVertices: nat)
    requires firstVertex + count < 0x1_0000_0000_0000_0000
    ensures RangeCheckAsWritten(firstVertex, count, numVertices) <==> RangeCheck(firstVertex, count, numVertices)
  {
  }

  /** Bytes of `count` vertices of `vertexSize` bytes each. */
  function VertexBytes(count: nat, vertexSize: nat): nat
  {
    count * vertexSize
  }

  /** `glVertexAttribPointer` and the other GL calls the buffer makes. */
  datatype GlCall =
    | GenBuffers
    | DeleteBuffers(name: nat)
    | BindArrayBuffer(name: nat)
    | BufferData(size: nat, data: Option<seq<uint8>>, dynamic: bool)
    | BufferSubData(offset: nat, size: nat, bytes: seq<uint8>)
    | EnableVertexAttribArray(attribute: nat)
    | DisableVertexAttribArray(attribute: nat)
    | VertexAttribPointer(attribute: nat, components: nat, elementType: ElementType, stride: nat, offset: nat)

  type uint8 = x: int | 0 <= x < 256

  /** The calls `Bind` makes for element `e` under `mask`, with `bound` already enabled. */
  function ElementCalls(e: VertexElement, mask: set<nat>, bound: set<nat>, vertexSize: nat): seq<GlCall>
  {
    var a := AttributeIndex(e);
    if a !in mask then []
    else
      (if a in bound then [] else [EnableVertexAttribArray(a)])
      + [VertexAttribPointer(a, ElementGLSizes[e.elementType], e.elementType, vertexSize, e.offset)]
  }

  /** The calls of `Bind`'s element loop over `elements`. */
  function AttributeCalls(elements: seq<VertexElement>, mask: set<nat>, bound: set<nat>, vertexSize: nat): seq<GlCall>
  {
    if elements == [] then []
    else AttributeCalls(elements[..|elements| - 1], mask, bound, vertexSize)
         + ElementCalls(elements[|elements| - 1], mask, bound, vertexSize)
  }

  /** `glDisableVertexAttribArray` for each attribute of `attrs` in `[lo, hi)`, in increasing order. */
  function DisableCalls(attrs: set<nat>, lo: nat, hi: nat): seq<GlCall>
    requires lo <= hi
    decreases hi - lo
  {
    if lo == hi then []
    else (if lo in attrs then [DisableVertexAttribArray(lo)] else []) + DisableCalls(attrs, lo + 1, hi)
  }

  /** Every call disables an attribute of `attrs` in `[lo, hi)`, each one after a lower one. */
  predicate DisablesInOrder(calls: seq<GlCall>, attrs: set<nat>, lo: nat, hi: nat)
  {
    && (forall k :: 0 <= k < |calls| ==>
          calls[k].DisableVertexAttribArray? && calls[k].attribute in attrs && lo <= calls[k].attribute < hi)
    && (forall j, k :: 0 <= j < k < |calls| ==> calls[j].attribute < calls[k].attribute)
  }

  /** The disabling calls name attributes of `attrs` in `[lo, hi)`, in increasing order. */
  lemma {:induction false} DisableCallsInOrder(attrs: set<nat>, lo: nat, hi: nat)
    requires lo <= hi
    ensures DisablesInOrder(DisableCalls(attrs, lo, hi), attrs, lo, hi)
    decreases hi - lo
  {
    if lo < hi {
      DisableCallsInOrder(attrs, lo + 1, hi);
      var rest := DisableCalls(attrs, lo + 1, hi);
      var calls := DisableCalls(attrs, lo, hi);
      if lo in attrs {
        assert calls == [DisableVertexAttribArray(lo)] + rest;
        forall k | 0 < k < |calls|
          ensures calls[k] == rest[k - 1] && lo < calls[k].attribute
        {
        }
      } else {
        assert calls == rest;
      }
    }
  }

  /** Every attribute of `attrs` in `[lo, hi)` is disabled. */
  lemma {:induction false} DisableCallsComplete(attrs: set<nat>, lo: nat, hi: nat)
    requires lo <= hi
    ensures forall a :: a in attrs && lo <= a < hi ==> DisableVertexAttribArray(a) in DisableCalls(attrs, lo, hi)
    decreases hi - lo
  {
    if lo < hi {
      DisableCallsComplete(attrs, lo + 1, hi);
    }
  }

  /** Extending the range by one attribute appends that attribute's call. */
  lemma {:induction false} DisableCallsExtend(attrs: set<nat>, lo: nat, hi: nat)
    requires lo <= hi
    ensures DisableCalls(attrs, lo, hi + 1)
            == DisableCalls(attrs, lo, hi) + (if hi in attrs then [DisableVertexAttribArray(hi)] else [])
    decreases hi - lo
  {
    if lo < hi {
      DisableCallsExtend(attrs, lo + 1, hi);
    }
  }

  /** Attributes past the last one in the set add no calls. */
  lemma {:induction false} DisableCallsBeyond(attrs: set<nat>, lo: nat, hi: nat, top: nat)
    requires lo <= hi <= top
    requires forall a :: a in attrs ==> a < hi
    ensures DisableCalls(attrs, lo, top) == DisableCalls(attrs, lo, hi)
    decreases top - hi
  {
    if hi < top {
      DisableCallsBeyond(attrs, lo, hi + 1, top);
      DisableCallsExtend(attrs, lo, hi);
    }
  }

  /** Usage hint of a buffer; only whether it is dynamic reaches GL. */
  datatype ResourceUsage = UsageDefault | UsageDynamic

  /** The file-static binding record of the GL context, and the calls made to it. */
  class BindingState {
    /** `boundAttributes`: the enabled vertex attributes. */
    var boundAttributes: set<nat>
    /** `boundVertexBuffer`: the buffer bound to `GL_ARRAY_BUFFER`. */
    var boundVertexBuffer: VertexBuffer?
    /** `boundVertexAttribSource`: the buffer the enabled attributes point into. */
    var boundVertexAttribSource: VertexBuffer?
    /** The GL calls made so far. */
    var calls: seq<GlCall>

    /** Only bit positions of a 32-bit word are enabled. */
    ghost predicate Valid()
      reads this
    {
      forall a :: a in boundAttributes ==> a < 32
    }

    /** The state at start-up: nothing bound. */
    constructor ()
      ensures Valid() && boundAttributes == {} && boundVertexBuffer == null && boundVertexAttribSource == null
      ensures calls == []
    {
      boundAttributes := {};
      boundVertexBuffer := null;
      boundVertexAttribSource := null;
      calls := [];
    }
  }

  class VertexBuffer {
    /** The GL buffer name, 0 when there is none. */
    var buffer: nat
    var numVertices: nat
    var vertexSize: nat
    var elements: seq<VertexElement>
    /** The attributes the elements feed. */
    var attributes: set<nat>
    var usage: ResourceUsage

    /** The vertex layout is the packed layout of the elements, and `attributes` its mask. */
    ghost predicate Valid()
      reads this`elements, this`attributes, this`vertexSize
    {
      && AttributesFit(elements)
      && attributes == AttributeMask(elements)
      && elements == WithOffsets(elements)
      && vertexSize == TotalSize(elements)
    }

    constructor ()
      ensures Valid() && buffer == 0 && numVertices == 0 && vertexSize == 0 && elements == []
      ensures attributes == {} && usage == UsageDefault
    {
      buffer := 0;
      numVertices := 0;
      vertexSize := 0;
      elements := [];
      attributes := {};
      usage := UsageDefault;
    }

    /**
     * `CalculateAttributeMask`: one bit, `baseAttributeIndex[semantic] + index`, for each
     * element.
     */
    static method CalculateAttributeMask(elements: seq<VertexElement>) returns (mask: set<nat>)
      ensures forall a :: a in mask <==> exists k :: 0 <= k < |elements| && AttributeIndex(elements[k]) == a
      ensures mask == AttributeMask(elements)
    {
      mask := {};
      var i := 0;
      while i < |elements|
        invariant i <= |elements|
        invariant mask == AttributeMask(elements[..i])
      {
        MaskStep(elements, i);
        mask := mask + {AttributeIndex(elements[i])};
        i := i + 1;
      }
      assert elements[..i] == elements;
      AttributeMaskMembers(elements);
    }

    /**
     * The offset loop of `Define`: copy the elements, giving each the vertex size so far as its
     * offset, and add its size.
     */
    method LayOut(input: seq<VertexElement>)
      modifies this`elements, this`vertexSize
      ensures elements == WithOffsets(input) && vertexSize == TotalSize(input)
    {
      var laid := input;
      var size := 0;
      var i := 0;
      while i < |laid|
        invariant i <= |laid| == |input|
        invariant size == TotalSize(input[..i])
        invariant forall k :: 0 <= k < i ==> laid[k] == WithOffsets(input)[k]
        invariant forall k :: i <= k < |laid| ==> laid[k] == input[k]
      {
        laid := laid[i := laid[i].(offset := size)];
        TotalSizeStep(input, i);
        size := size + ElementTypeSize(laid[i].elementType);
        i := i + 1;
      }
      elements := laid;
      vertexSize := size;
      assert input[..i] == input;
    }

    /**
     * `Define`: release the old buffer; refuse a buffer with no vertices or no elements; lay
     * out the elements and work out the attribute mask; then create the GL buffer, which GL
     * names `generated` (0 when it fails).
     */
    method Define(st: BindingState, newUsage: ResourceUsage, newNumVertices: nat, newElements: seq<VertexElement>,
                  data: Option<seq<uint8>>, generated: nat) returns (ok: bool)
      requires st.Valid() && AttributesFit(newElements)
      modifies this, st
      ensures st.Valid() && st.boundAttributes == old(st.boundAttributes)
      ensures newNumVertices == 0 || newElements == [] ==>
                && !ok && buffer == 0 && numVertices == old(numVertices) && elements == old(elements)
                && vertexSize == old(vertexSize) && attributes == old(attributes) && usage == old(usage)
                && (Valid() <==> old(Valid()))
                && st.calls == old(st.calls) + ReleaseCalls(old(buffer))
                && st.boundVertexBuffer == Released(old(st.boundVertexBuffer), old(buffer))
                && st.boundVertexAttribSource == Released(old(st.boundVertexAttribSource), old(buffer))
      ensures newNumVertices > 0 && newElements != [] ==>
                && Valid() && ok == (generated != 0) && buffer == generated
                && numVertices == newNumVertices && usage == newUsage
                && elements == WithOffsets(newElements) && vertexSize == TotalSize(newElements)
                && attributes == AttributeMask(newElements)
      ensures newNumVertices > 0 && newElements != [] && !ok ==>
                && st.calls == old(st.calls) + ReleaseCalls(old(buffer)) + [GenBuffers]
                && st.boundVertexBuffer == Released(old(st.boundVertexBuffer), old(buffer))
                && st.boundVertexAttribSource == Released(old(st.boundVertexAttribSource), old(buffer))
      ensures ok ==>
                var boundAfterRelease := Released(old(st.boundVertexBuffer), old(buffer));
                var sourceAfterRelease := Released(old(st.boundVertexAttribSource), old(buffer));
                && st.calls == old(st.calls) + ReleaseCalls(old(buffer)) + [GenBuffers] + BindCalls(boundAfterRelease)
                               + [BufferData(VertexBytes(newNumVertices, TotalSize(newElements)), data, newUsage == UsageDynamic)]
                && st.boundVertexBuffer == this
                && st.boundVertexAttribSource == (if sourceAfterRelease == this then null else sourceAfterRelease)
    {
      Release(st);
      if newNumVertices == 0 || newElements == [] {
        return false;
      }
      ghost var callsAfterRelease := st.calls;
      ghost var boundAfterRelease := st.boundVertexBuffer;
      ghost var sourceAfterRelease := st.boundVertexAttribSource;
      numVertices := newNumVertices;
      usage := newUsage;
      LayOut(newElements);
      attributes := CalculateAttributeMask(elements);
      LayoutIdempotent(newElements);
      LayoutKeepsShape(newElements);
      assert st.calls == callsAfterRelease && st.boundVertexBuffer == boundAfterRelease
          && st.boundVertexAttribSource == sourceAfterRelease;
      ok := Create(st, data, generated);
    }

    /**
     * `SetData`: refuse a null source or a range past the last vertex (checked without the
     * wrap-around of the source's `size_t` sum, see `RangeCheckWraps`); with a GL buffer,
     * bind it and upload the whole buffer (all vertices), a discarded buffer and the range,
     * or the range alone.
     */
    method SetData(st: BindingState, firstVertex: size_t, count: size_t, data: Option<seq<uint8>>, discard: bool)
      returns (ok: bool)
      requires Valid() && st.Valid()
      modifies st
      ensures st.Valid()
      ensures ok <==> data.Some? && firstVertex + count <= numVertices
      ensures !ok ==> unchanged(st)
      ensures ok && buffer == 0 ==> unchanged(st)
      ensures ok && buffer != 0 ==>
                && st.boundVertexBuffer == this
                && st.boundAttributes == old(st.boundAttributes)
                && st.boundVertexAttribSource == old(st.boundVertexAttribSource)
                && st.calls == old(st.calls) + BindCalls(old(st.boundVertexBuffer)) + UploadCalls(firstVertex, count, data.value, discard)
    {
      if data.None? {
        return false;
      }
      if !RangeCheck(firstVertex, count, numVertices) {
        return false;
      }
      if buffer != 0 {
        Bind(st, {});
        st.calls := st.calls + UploadCalls(firstVertex, count, data.value, discard);
      }
      return true;
    }

    /** `glBindBuffer` unless this buffer is already bound. */
    function BindCalls(bound: VertexBuffer?): seq<GlCall>
      reads this`buffer
    {
      if bound == this then [] else [BindArrayBuffer(buffer)]
    }

    /** The upload calls of `SetData` for a range that fits. */
    function UploadCalls(firstVertex: nat, count: nat, data: seq<uint8>, discard: bool): seq<GlCall>
      reads this`numVertices, this`vertexSize, this`usage
    {
      var update := BufferSubData(VertexBytes(firstVertex, vertexSize), VertexBytes(count, vertexSize), data);
      if count == numVertices then [BufferData(VertexBytes(numVertices, vertexSize), Some(data), usage == UsageDynamic)]
      else if discard then [BufferData(VertexBytes(numVertices, vertexSize), None, usage == UsageDynamic), update]
      else [update]
    }

    /**
     * `Bind(attributeMask)`: nothing without a GL buffer; an empty mask only binds the buffer;
     * otherwise, unless this buffer already provides exactly the requested attributes it has,
     * bind it, point each requested attribute at its element (enabling those not yet enabled),
     * disable the previously enabled attributes no longer used, and record the new state.
     */
    method Bind(st: BindingState, mask: set<nat>)
      requires Valid() && st.Valid()
      modifies st
      ensures st.Valid()
      ensures buffer == 0 ==> unchanged(st)
      ensures buffer != 0 && mask == {} ==>
                && st.boundVertexBuffer == this
                && st.boundAttributes == old(st.boundAttributes)
                && st.boundVertexAttribSource == old(st.boundVertexAttribSource)
                && st.calls == old(st.calls) + BindCalls(old(st.boundVertexBuffer))
      ensures buffer != 0 && mask != {} && mask * attributes == old(st.boundAttributes) && old(st.boundVertexAttribSource) == this
              ==> unchanged(st)
      ensures buffer != 0 && mask != {} && !(mask * attributes == old(st.boundAttributes) && old(st.boundVertexAttribSource) == this)
              ==>
                && st.boundAttributes == mask * attributes
                && st.boundVertexBuffer == this && st.boundVertexAttribSource == this
                && st.calls == old(st.calls) + BindCalls(old(st.boundVertexBuffer))
                               + AttributeCalls(elements, mask * attributes, old(st.boundAttributes), vertexSize)
                               + DisableCalls(old(st.boundAttributes) - mask * attributes, 0, 32)
    {
      if buffer == 0 {
        return;
      }
      if mask == {} {
        if st.boundVertexBuffer != this {
          st.calls := st.calls + [BindArrayBuffer(buffer)];
          st.boundVertexBuffer := this;
        }
        return;
      }
      var requested := mask * attributes;
      if requested == st.boundAttributes && st.boundVertexAttribSource == this {
        return;
      }
      MaskFits(elements);
      Rebind(st, requested);
    }

    /**
     * The last part of `Bind`: bind the buffer, point the `requested` attributes at their
     * elements, disable the attributes no longer used and record the new state.
     */
    method Rebind(st: BindingState, requested: set<nat>)
      requires st.Valid() && forall a :: a in requested ==> a < 32
      modifies st
      ensures st.Valid()
      ensures var used := AttributeMask(elements) * requested;
        && st.boundAttributes == used
        && st.boundVertexBuffer == this && st.boundVertexAttribSource == this
        && st.calls == old(st.calls) + BindCalls(old(st.boundVertexBuffer))
                       + AttributeCalls(elements, requested, old(st.boundAttributes), vertexSize)
                       + DisableCalls(old(st.boundAttributes) - used, 0, 32)
    {
      if st.boundVertexBuffer != this {
        st.calls := st.calls + [BindArrayBuffer(buffer)];
        st.boundVertexBuffer := this;
      }
      var used := PointAttributes(st, requested);
      DisableUnused(st, st.boundAttributes - used);
      st.boundAttributes := used;
      st.boundVertexAttribSource := this;
    }

    /** The element loop of `Bind`: the attributes it uses, and the calls it makes. */
    method PointAttributes(st: BindingState, requested: set<nat>) returns (used: set<nat>)
      modifies st`calls
      ensures used == AttributeMask(elements) * requested
      ensures st.calls == old(st.calls) + AttributeCalls(elements, requested, st.boundAttributes, vertexSize)
    {
      var bound := st.boundAttributes;
      var log := [];
      used := {};
      var i := 0;
      while i < |elements|
        invariant i <= |elements|
        invariant used == AttributeMask(elements[..i]) * requested
        invariant log == AttributeCalls(elements[..i], requested, bound, vertexSize)
        invariant st.calls == old(st.calls)
      {
        var element := elements[i];
        var a := AttributeIndex(element);
        PointStep(elements, i, requested, bound, vertexSize, used, log);
        if a in requested {
          if a !in bound {
            log := log + [EnableVertexAttribArray(a)];
          }
          log := log + [VertexAttribPointer(a, ElementGLSizes[element.elementType], element.elementType, vertexSize, element.offset)];
          used := used + {a};
        }
        i := i + 1;
      }
      assert elements[..i] == elements;
      st.calls := st.calls + log;
    }

    /**
     * The disabling loop of `Bind`: walk the attributes from 0 while any remain, disabling
     * each one in `disable`.
     */
    static method DisableUnused(st: BindingState, disable: set<nat>)
      requires forall a :: a in disable ==> a < 32
      modifies st`calls
      ensures st.calls == old(st.calls) + DisableCalls(disable, 0, 32)
    {
      var remaining := disable;
      var index := 0;
      while remaining != {}
        invariant index <= 32
        invariant remaining == set a | a in disable && a >= index
        invariant st.calls == old(st.calls) + DisableCalls(disable, 0, index)
        decreases 32 - index
      {
        assert index < 32 by {
          var a :| a in remaining;
        }
        DisableCallsExtend(disable, 0, index);
        if index in remaining {
          st.calls := st.calls + [DisableVertexAttribArray(index)];
        }
        remaining := remaining - {index};
        index := index + 1;
      }
      forall a | a in disable
        ensures a < index
      {
        assert a !in remaining;
      }
      DisableCallsBeyond(disable, 0, index, 32);
    }

    /**
     * `Create`: generate a GL buffer (named `generated`, 0 when it fails); bind it and upload
     * the initial data; the attributes no longer point into this buffer.
     */
    method Create(st: BindingState, data: Option<seq<uint8>>, generated: nat) returns (ok: bool)
      requires Valid() && st.Valid()
      modifies this`buffer, st
      ensures st.Valid()
      ensures buffer == generated && ok == (generated != 0)
      ensures !ok ==> st.calls == old(st.calls) + [GenBuffers] && st.boundVertexBuffer == old(st.boundVertexBuffer)
                      && st.boundVertexAttribSource == old(st.boundVertexAttribSource)
      ensures ok ==>
                && st.boundVertexBuffer == this
                && st.calls == old(st.calls) + [GenBuffers] + BindCalls(old(st.boundVertexBuffer))
                               + [BufferData(VertexBytes(numVertices, vertexSize), data, usage == UsageDynamic)]
                && st.boundVertexAttribSource == (if old(st.boundVertexAttribSource) == this then null else old(st.boundVertexAttribSource))
      ensures st.boundAttributes == old(st.boundAttributes)
    {
      st.calls := st.calls + [GenBuffers];
      buffer := generated;
      if buffer == 0 {
        return false;
      }
      Bind(st, {});
      st.calls := st.calls + [BufferData(VertexBytes(numVertices, vertexSize), data, usage == UsageDynamic)];
      if st.boundVertexAttribSource == this {
        st.boundVertexAttribSource := null;
      }
      return true;
    }

    /** The calls `Release` makes for a buffer named `name`: `glDeleteBuffers` unless it is 0. */
    function ReleaseCalls(name: nat): seq<GlCall>
    {
      if name == 0 then [] else [DeleteBuffers(name)]
    }

    /** A binding after `Release` of this buffer, named `name`: forgotten if it referred to it. */
    function Released(bound: VertexBuffer?, name: nat): VertexBuffer?
    {
      if name != 0 && bound == this then null else bound
    }

    /** `Release`: delete the GL buffer and forget the bindings that referred to it. */
    method Release(st: BindingState)
      requires st.Valid()
      modifies this`buffer, st
      ensures st.Valid() && buffer == 0
      ensures st.calls == old(st.calls) + ReleaseCalls(old(buffer))
      ensures st.boundVertexBuffer == Released(old(st.boundVertexBuffer), old(buffer))
      ensures st.boundVertexAttribSource == Released(old(st.boundVertexAttribSource), old(buffer))
      ensures st.boundAttributes == old(st.boundAttributes)
    {
      if buffer != 0 {
        st.calls := st.calls + [DeleteBuffers(buffer)];
        buffer := 0;
        if st.boundVertexBuffer == this {
          st.boundVertexBuffer := null;
        }
        if st.boundVertexAttribSource == this {
          st.boundVertexAttribSource := null;
        }
      }
    }
  }
}
