/**
 * The two opaque value wrappers. Both pair an optional registry tag with a shared, type-erased allocation; they
 * differ in what equality means. `SharedReference` (values read back from the backend) compares by the address
 * of the allocation; `SharedValue` (values built by application code) compares by tag and content. Both
 * serialise to the 2-tuple `(global name, payload)` when, and only when, they are tagged and the tag's type
 * registered the matching capability.
 */
module Shared {
  import opened Base
  import opened ValueTypes

  /** What a shared allocation holds: the concrete type and an encoding of the value. */
  datatype Content = Content(rustType: RustTypeId, data: nat)

  /** `SharedReference(Option<ValueTypeId>, Arc<dyn Any>)`: `alloc` is the address of the `Arc`. */
  datatype SharedReference = SharedReference(ty: Option<ValueTypeId>, alloc: AllocId, content: Content)

  /** `SharedValue(Option<ValueTypeId>, Arc<dyn MagicAny>)`. */
  datatype SharedValue = SharedValue(ty: Option<ValueTypeId>, alloc: AllocId, content: Content)

  /** The two serialisation capabilities of a registered type: `any_*` for references, `magic_*` for values. */
  datatype Form = AnyForm | MagicForm

  function CapabilityOf(vt: ValueType, form: Form): Capability {
    match form
    case AnyForm => vt.anySerialization
    case MagicForm => vt.magicSerialization
  }

  /** `Arc::downcast` (and `downcast_ref`): recovers the value when the concrete type is the requested one. */
  function Downcast(c: Content, t: RustTypeId): (d: Option<nat>)
    ensures d.Some? <==> c.rustType == t
    ensures d.Some? ==> Content(t, d.value) == c
  {
    if c.rustType == t then Some(c.data) else None
  }

  // ---------------------------------------------------------------------------------------------------------
  // Equality and ordering

  /** `PartialEq for SharedReference`: the two wrappers share one allocation. Tag and content are ignored. */
  predicate ReferenceEq(a: SharedReference, b: SharedReference): (r: bool)
    ensures r <==> a.(ty := b.ty, content := b.content) == b
  {
    a.alloc == b.alloc
  }

  /** `PartialEq for SharedValue`: equal tags and equal contents (dynamic equality of the erased values). */
  predicate ValueEq(a: SharedValue, b: SharedValue): (r: bool)
    ensures r <==> a.(alloc := b.alloc) == b
  {
    a.ty == b.ty && a.content == b.content
  }

  datatype Ordering = Less | Equal | Greater

  /** `Ord for SharedReference`: the order of the allocation addresses. */
  function ReferenceCmp(a: SharedReference, b: SharedReference): (o: Ordering)
    ensures o == Equal <==> ReferenceEq(a, b)
    ensures o == Less <==> a.alloc < b.alloc
  {
    if a.alloc < b.alloc then Less else if a.alloc == b.alloc then Equal else Greater
  }

  /**
   * Identity versus content: independently allocated references around equal content are different, while
   * independently allocated values around equal content under the same tag are equal.
   */
  lemma IdentityVersusContent(a: SharedReference, b: SharedReference, x: SharedValue, y: SharedValue)
    ensures a.content == b.content && a.alloc != b.alloc ==> !ReferenceEq(a, b)
    ensures x.ty == y.ty && x.content == y.content ==> ValueEq(x, y)
  {
  }

  /** The shared allocations alive at one moment: each address holds one content. */
  type Heap = map<AllocId, Content>

  /** A reference reads the allocation it points at: its address is live and holds its content. */
  ghost predicate PointsInto(heap: Heap, r: SharedReference) {
    r.alloc in heap && heap[r.alloc] == r.content
  }

  /**
   * Identity equality is a sound shortcut for content equality: two references into one heap that are equal by
   * address see the same value. The converse fails: distinct allocations may hold equal contents.
   */
  lemma ReferenceEqImpliesSameContent(heap: Heap, a: SharedReference, b: SharedReference)
    requires PointsInto(heap, a) && PointsInto(heap, b)
    ensures ReferenceEq(a, b) ==> a.content == b.content
    ensures a.content == b.content && a.alloc != b.alloc ==> !ReferenceEq(a, b)
  {
  }

  /** `ReferenceCmp` is a total order consistent with `ReferenceEq`. */
  lemma ReferenceCmpAntisymmetric(a: SharedReference, b: SharedReference)
    ensures ReferenceCmp(a, b) == Less <==> ReferenceCmp(b, a) == Greater
    ensures ReferenceCmp(a, b) == Equal <==> ReferenceCmp(b, a) == Equal
  {
  }

  // ---------------------------------------------------------------------------------------------------------
  // Serialisation: the decision structure around the 2-tuple `(global name, payload)`

  /** One element of the serialised tuple. */
  datatype Element = Name(name: string) | Payload(content: Content)

  /** A tag, when present, names a registered type whose concrete type is the content's: what `Value<T>` builds. */
  ghost predicate WellTagged(reg: Registry, ty: Option<ValueTypeId>, c: Content) {
    ty.Some? ==> ty.value in reg.types && reg.types[ty.value].rustType == c.rustType
  }

  /** The body shared by both `Serialize` impls. */
  function Encode(reg: Registry, ty: Option<ValueTypeId>, c: Content, form: Form): (w: Result<seq<Element>>)
    requires ty.Some? ==> ty.value in reg.types
    ensures ty.None? ==> w == Err(Untyped)
    ensures w.Ok? <==> ty.Some? && CapabilityOf(reg.types[ty.value], form).serialize
    ensures w.Ok? ==> w.value == [Name(GlobalName(reg, ty.value)), Payload(c)]
    ensures w.Err? && ty.Some? ==> w.error == NotSerializable(ty.value)
  {
    match ty
    case None => Err(Untyped)
    case Some(t) =>
      if CapabilityOf(reg.types[t], form).serialize then Ok([Name(GlobalName(reg, t)), Payload(c)])
      else Err(NotSerializable(t))
  }

  /** The body shared by both `visit_seq` impls: reads the global name, then the payload through the type's seed. */
  function Decode(reg: Registry, w: seq<Element>, form: Form): (r: Result<(ValueTypeId, Content)>)
    requires WellFormed(reg)
    ensures r.Ok? <==>
      && |w| >= 2 && w[0].Name? && w[0].name in reg.byGlobalName
      && CapabilityOf(reg.types[reg.byGlobalName[w[0].name]], form).deserialize
      && w[1].Payload? && w[1].content.rustType == reg.types[reg.byGlobalName[w[0].name]].rustType
    ensures r.Ok? ==> r.value.0 in reg.types && w[..2] == [Name(GlobalName(reg, r.value.0)), Payload(r.value.1)]
    ensures r.Ok? ==> WellTagged(reg, Some(r.value.0), r.value.1)
    ensures |w| == 0 ==> r == Err(InvalidLength(0))
    ensures |w| >= 1 && !w[0].Name? ==> r == Err(MalformedElement(0))
    ensures |w| >= 1 && w[0].Name? && w[0].name !in reg.byGlobalName ==> r == Err(UnknownVariant(w[0].name))
    ensures |w| >= 1 && w[0].Name? && w[0].name in reg.byGlobalName
            && !CapabilityOf(reg.types[reg.byGlobalName[w[0].name]], form).deserialize
            ==> r == Err(NotDeserializable(reg.byGlobalName[w[0].name]))
    ensures |w| == 1 && w[0].Name? && w[0].name in reg.byGlobalName
            && CapabilityOf(reg.types[reg.byGlobalName[w[0].name]], form).deserialize
            ==> r == Err(InvalidLength(1))
    ensures |w| >= 2 && w[0].Name? && w[0].name in reg.byGlobalName
            && CapabilityOf(reg.types[reg.byGlobalName[w[0].name]], form).deserialize
            && (!w[1].Payload? || w[1].content.rustType != reg.types[reg.byGlobalName[w[0].name]].rustType)
            ==> r == Err(MalformedElement(1))
  {
    if |w| == 0 then Err(InvalidLength(0))
    else if !w[0].Name? then Err(MalformedElement(0))
    else match TypeIdByGlobalName(reg, w[0].name)
      case None => Err(UnknownVariant(w[0].name))
      case Some(t) =>
        var vt := reg.types[t];
        if !CapabilityOf(vt, form).deserialize then Err(NotDeserializable(t))
        else if |w| < 2 then Err(InvalidLength(1))
        else if !w[1].Payload? || w[1].content.rustType != vt.rustType then Err(MalformedElement(1))
        else Ok((t, w[1].content))
  }

  /** `Serialize for SharedReference`. */
  function SerializeReference(reg: Registry, r: SharedReference): (w: Result<seq<Element>>)
    requires r.ty.Some? ==> r.ty.value in reg.types
    ensures r.ty.None? ==> w == Err(Untyped)
    ensures w.Ok? <==> r.ty.Some? && reg.types[r.ty.value].anySerialization.serialize
  {
    Encode(reg, r.ty, r.content, AnyForm)
  }

  /** `Deserialize for SharedReference`: on success a tagged reference around a freshly allocated `Arc`. */
  function DeserializeReference(reg: Registry, w: seq<Element>, addr: AllocId): (r: Result<SharedReference>)
    requires WellFormed(reg)
    ensures r.Ok? ==> r.value.ty.Some? && r.value.alloc == addr
    ensures r.Ok? ==> WellTagged(reg, r.value.ty, r.value.content)
    ensures r.Ok? ==> |w| >= 2 && w[..2] == [Name(GlobalName(reg, r.value.ty.value)), Payload(r.value.content)]
    ensures r.Ok? <==> Decode(reg, w, AnyForm).Ok?
    ensures r.Err? ==> r.error == Decode(reg, w, AnyForm).error
  {
    match Decode(reg, w, AnyForm)
    case Ok((t, c)) => Ok(SharedReference(Some(t), addr, c))
    case Err(e) => Err(e)
  }

  /** `Serialize for SharedValue`. */
  function SerializeValue(reg: Registry, v: SharedValue): (w: Result<seq<Element>>)
    requires v.ty.Some? ==> v.ty.value in reg.types
    ensures v.ty.None? ==> w == Err(Untyped)
    ensures w.Ok? <==> v.ty.Some? && reg.types[v.ty.value].magicSerialization.serialize
  {
    Encode(reg, v.ty, v.content, MagicForm)
  }

  /** `Deserialize for SharedValue`: on success a tagged value around a freshly allocated `Arc`. */
  function DeserializeValue(reg: Registry, w: seq<Element>, addr: AllocId): (r: Result<SharedValue>)
    requires WellFormed(reg)
    ensures r.Ok? ==> r.value.ty.Some? && r.value.alloc == addr
    ensures r.Ok? ==> WellTagged(reg, r.value.ty, r.value.content)
    ensures r.Ok? ==> |w| >= 2 && w[..2] == [Name(GlobalName(reg, r.value.ty.value)), Payload(r.value.content)]
    ensures r.Ok? <==> Decode(reg, w, MagicForm).Ok?
    ensures r.Err? ==> r.error == Decode(reg, w, MagicForm).error
  {
    match Decode(reg, w, MagicForm)
    case Ok((t, c)) => Ok(SharedValue(Some(t), addr, c))
    case Err(e) => Err(e)
  }

  /**
   * A tagged value whose type registered both halves of the magic capability survives the round trip under
   * value equality; only the allocation is new.
   */
  lemma ValueRoundTrip(reg: Registry, v: SharedValue, addr: AllocId)
    requires WellFormed(reg) && WellTagged(reg, v.ty, v.content) && v.ty.Some?
    requires reg.types[v.ty.value].magicSerialization == Capability(true, true)
    ensures SerializeValue(reg, v).Ok?
    ensures DeserializeValue(reg, SerializeValue(reg, v).value, addr) == Ok(v.(alloc := addr))
    ensures ValueEq(DeserializeValue(reg, SerializeValue(reg, v).value, addr).value, v)
  {
    GlobalNameRoundTrip(reg, v.ty.value, "");
  }

  /**
   * A tagged reference survives the round trip with its tag and content, but in a new allocation: under
   * identity equality the result equals the original only if the new address happens to be the old one.
   */
  lemma ReferenceRoundTrip(reg: Registry, r: SharedReference, addr: AllocId)
    requires WellFormed(reg) && WellTagged(reg, r.ty, r.content) && r.ty.Some?
    requires reg.types[r.ty.value].anySerialization == Capability(true, true)
    ensures SerializeReference(reg, r).Ok?
    ensures DeserializeReference(reg, SerializeReference(reg, r).value, addr) == Ok(r.(alloc := addr))
    ensures ReferenceEq(DeserializeReference(reg, SerializeReference(reg, r).value, addr).value, r)
        <==> addr == r.alloc
  {
    GlobalNameRoundTrip(reg, r.ty.value, "");
  }

  /**
   * Deserialisation allocates while the original is still alive, so the new address is not in use: the reference
   * read back is never identity-equal to the one written.
   */
  lemma ReferenceRoundTripIsNotIdentical(reg: Registry, heap: Heap, r: SharedReference, addr: AllocId)
    requires WellFormed(reg) && WellTagged(reg, r.ty, r.content) && r.ty.Some?
    requires reg.types[r.ty.value].anySerialization == Capability(true, true)
    requires PointsInto(heap, r) && addr !in heap
    ensures SerializeReference(reg, r).Ok?
    ensures DeserializeReference(reg, SerializeReference(reg, r).value, addr).Ok?
    ensures !ReferenceEq(DeserializeReference(reg, SerializeReference(reg, r).value, addr).value, r)
  {
    ReferenceRoundTrip(reg, r, addr);
  }

  /** Untyped wrappers (transient values) never serialise, whatever the registry holds. */
  lemma UntypedNeverSerializes(reg: Registry, r: SharedReference, v: SharedValue)
    requires r.ty.None? && v.ty.None?
    ensures SerializeReference(reg, r) == Err(Untyped) && SerializeValue(reg, v) == Err(Untyped)
  {
  }
}
