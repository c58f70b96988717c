/**
 * The typed conversion layer: infallible construction of a `TaskInput` from native values (the `From` impls)
 * and fallible extraction of native values from it (the `TryFrom<&TaskInput>` impls). A generic impl over
 * `T: Into<TaskInput>` or `T: TryFrom<&TaskInput>` takes the element conversion as a function parameter.
 */
module Conversions {
  import opened Base
  import Vc
  import ValueTypes
  import Shared
  import opened TaskInputs

  // ---------------------------------------------------------------------------------------------------------
  // Cell references and slot contents

  /** `From<RawVc>`. */
  function FromRawVc(rv: Vc.RawVc): (v: TaskInput)
    ensures IsIndirection(v) && GetTaskId(v) == Some(rv.task)
    ensures v.TaskOutput? <==> rv.TaskOutput?
  {
    match rv
    case TaskOutput(t) => TaskOutput(t)
    case TaskSlot(t, i) => TaskSlot(t, i)
  }

  /** `TryFrom<&TaskInput> for RawVc`: succeeds exactly on the two indirections, and inverts `FromRawVc`. */
  function TryIntoRawVc(v: TaskInput): (r: Result<Vc.RawVc>)
    ensures r.Ok? <==> IsIndirection(v)
    ensures r.Ok? ==> FromRawVc(r.value) == v
    ensures r.Err? ==> r.error == InvalidType(SlotRefKind)
  {
    match v
    case TaskOutput(t) => Ok(Vc.TaskOutput(t))
    case TaskSlot(t, i) => Ok(Vc.TaskSlot(t, i))
    case _ => Err(InvalidType(SlotRefKind))
  }

  lemma RawVcRoundTrip(rv: Vc.RawVc)
    ensures TryIntoRawVc(FromRawVc(rv)) == Ok(rv)
  {
  }

  /** `get_task_id` agrees with the task of the extracted cell reference. */
  lemma GetTaskIdMatchesRawVc(v: TaskInput)
    ensures GetTaskId(v).Some? <==> TryIntoRawVc(v).Ok?
    ensures TryIntoRawVc(v).Ok? ==> GetTaskId(v) == Some(TryIntoRawVc(v).value.task)
  {
  }

  /** `From<SlotContent>`: an empty slot is the `Nothing` sentinel, a filled one a `SharedReference`. */
  function FromSlotContent(content: Option<Shared.SharedReference>): (v: TaskInput)
    ensures IsNothing(v) <==> content.None?
    ensures content.Some? ==> v.SharedReference? && v.reference == content.value
    ensures IsResolved(v) && !IsIndirection(v)
  {
    match content
    case None => Nothing
    case Some(r) => SharedReference(r)
  }

  // ---------------------------------------------------------------------------------------------------------
  // Scalars and strings. `&str` converts exactly as `String` does.

  function FromString(s: string): (v: TaskInput)
    ensures IsResolved(v) && !IsIndirection(v)
  {
    String(s)
  }

  function FromBool(b: bool): (v: TaskInput)
    ensures IsResolved(v) && !IsIndirection(v)
  {
    Bool(b)
  }

  function FromI32(x: I32): (v: TaskInput)
    ensures IsResolved(v) && !IsIndirection(v)
  {
    I32(x)
  }

  function FromU32(x: U32): (v: TaskInput)
    ensures IsResolved(v) && !IsIndirection(v)
  {
    U32(x)
  }

  function FromUsize(x: Usize): (v: TaskInput)
    ensures IsResolved(v) && !IsIndirection(v)
  {
    Usize(x)
  }

  /** `TryFrom<&TaskInput> for String` (and for `&str`). */
  function TryIntoString(v: TaskInput): (r: Result<string>)
    ensures r.Ok? <==> v.String?
    ensures r.Ok? ==> FromString(r.value) == v
    ensures r.Err? ==> r.error == InvalidType(StringKind)
  {
    match v
    case String(s) => Ok(s)
    case _ => Err(InvalidType(StringKind))
  }

  function TryIntoBool(v: TaskInput): (r: Result<bool>)
    ensures r.Ok? <==> v.Bool?
    ensures r.Ok? ==> FromBool(r.value) == v
    ensures r.Err? ==> r.error == InvalidType(BoolKind)
  {
    match v
    case Bool(b) => Ok(b)
    case _ => Err(InvalidType(BoolKind))
  }

  function TryIntoU32(v: TaskInput): (r: Result<U32>)
    ensures r.Ok? <==> v.U32?
    ensures r.Ok? ==> FromU32(r.value) == v
    ensures r.Err? ==> r.error == InvalidType(U32Kind)
  {
    match v
    case U32(x) => Ok(x)
    case _ => Err(InvalidType(U32Kind))
  }

  function TryIntoI32(v: TaskInput): (r: Result<I32>)
    ensures r.Ok? <==> v.I32?
    ensures r.Ok? ==> FromI32(r.value) == v
    ensures r.Err? ==> r.error == InvalidType(I32Kind)
  {
    match v
    case I32(x) => Ok(x)
    case _ => Err(InvalidType(I32Kind))
  }

  function TryIntoUsize(v: TaskInput): (r: Result<Usize>)
    ensures r.Ok? <==> v.Usize?
    ensures r.Ok? ==> FromUsize(r.value) == v
    ensures r.Err? ==> r.error == InvalidType(UsizeKind)
  {
    match v
    case Usize(x) => Ok(x)
    case _ => Err(InvalidType(UsizeKind))
  }

  /** Every scalar survives construction followed by extraction. */
  lemma ScalarRoundTrips(s: string, b: bool, u: U32, i: I32, n: Usize)
    ensures TryIntoString(FromString(s)) == Ok(s)
    ensures TryIntoBool(FromBool(b)) == Ok(b)
    ensures TryIntoU32(FromU32(u)) == Ok(u)
    ensures TryIntoI32(FromI32(i)) == Ok(i)
    ensures TryIntoUsize(FromUsize(n)) == Ok(n)
  {
  }

  /** A `u32` is not read back as any other scalar kind, even when the number would fit. */
  lemma ScalarKindsDoNotMix(u: U32)
    ensures TryIntoI32(FromU32(u)) == Err(InvalidType(I32Kind))
    ensures TryIntoUsize(FromU32(u)) == Err(InvalidType(UsizeKind))
    ensures TryIntoString(FromU32(u)) == Err(InvalidType(StringKind))
  {
  }

  // ---------------------------------------------------------------------------------------------------------
  // Vectors

  /** `From<Vec<T>>`: element-wise, in order. */
  function FromVec<T>(xs: seq<T>, into: T -> TaskInput): (v: TaskInput)
    ensures v.List? && |v.items| == |xs|
    ensures forall i | 0 <= i < |xs| :: v.items[i] == into(xs[i])
  {
    List(seq(|xs|, i requires 0 <= i < |xs| => into(xs[i])))
  }

  /** `collect::<Result<Vec<_>, _>>()` over the elements: every element converted, or the first failure. */
  function ExtractAll<T>(items: seq<TaskInput>, tryInto: TaskInput -> Result<T>): (r: Result<seq<T>>)
    ensures r.Ok? <==> forall i | 0 <= i < |items| :: tryInto(items[i]).Ok?
    ensures r.Ok? ==> |r.value| == |items| && forall i | 0 <= i < |items| :: tryInto(items[i]) == Ok(r.value[i])
    ensures r.Err? ==> exists k | 0 <= k < |items| ::
      tryInto(items[k]) == Err(r.error) && forall j | 0 <= j < k :: tryInto(items[j]).Ok?
  {
    if items == [] then Ok([])
    else match tryInto(items[0])
      case Err(e) => Err(e)
      case Ok(x) =>
        match ExtractAll(items[1..], tryInto)
        case Err(e) =>
          ghost var k :| 0 <= k < |items[1..]| && tryInto(items[1..][k]) == Err(e)
                         && forall j | 0 <= j < k :: tryInto(items[1..][j]).Ok?;
          assert tryInto(items[k + 1]) == Err(e);
          Err(e)
        case Ok(xs) => Ok([x] + xs)
  }

  /** `TryFrom<&TaskInput> for Vec<T>`. */
  function TryIntoVec<T>(v: TaskInput, tryInto: TaskInput -> Result<T>): (r: Result<seq<T>>)
    ensures r.Ok? <==> v.List? && forall i | 0 <= i < |v.items| :: tryInto(v.items[i]).Ok?
    ensures r.Ok? ==> |r.value| == |v.items| && forall i | 0 <= i < |r.value| :: tryInto(v.items[i]) == Ok(r.value[i])
    ensures !v.List? ==> r == Err(InvalidType(ListKind))
  {
    match v
    case List(items) => ExtractAll(items, tryInto)
    case _ => Err(InvalidType(ListKind))
  }

  /** When elements round-trip, vectors do: same length, same order, same elements. */
  lemma VecRoundTrip<T>(xs: seq<T>, into: T -> TaskInput, tryInto: TaskInput -> Result<T>)
    requires forall x :: tryInto(into(x)) == Ok(x)
    ensures TryIntoVec(FromVec(xs, into), tryInto) == Ok(xs)
  {
    var v := FromVec(xs, into);
    var r := TryIntoVec(v, tryInto);
    assert forall i | 0 <= i < |xs| :: tryInto(v.items[i]) == Ok(xs[i]);
    assert r.Ok?;
    assert r.value == xs;
  }

  /** The scalar conversions meet the hypothesis of `VecRoundTrip`; for instance `Vec<bool>` round-trips. */
  lemma BoolVecRoundTrip(bs: seq<bool>)
    ensures TryIntoVec(FromVec(bs, FromBool), TryIntoBool) == Ok(bs)
  {
    VecRoundTrip(bs, FromBool, TryIntoBool);
  }

  // ---------------------------------------------------------------------------------------------------------
  // Opaque values

  /**
   * `From<Value<T>>`: a tagged `SharedValue` around a new allocation at `addr`. The tag is `T`'s registered value
   * type, whose concrete type is `T` itself: the precondition is what `T::get_value_type_id()` guarantees.
   */
  function FromValue(reg: ValueTypes.Registry, tag: ValueTypeId, c: Shared.Content, addr: AllocId): (v: TaskInput)
    requires tag in reg.types && reg.types[tag].rustType == c.rustType
    ensures v.SharedValue? && TagOf(v) == Some(tag) && v.value.content == c
    ensures Shared.WellTagged(reg, v.value.ty, v.value.content)
  {
    SharedValue(Shared.SharedValue(Some(tag), addr, c))
  }

  /** `From<TransientValue<T>>`: an untagged `SharedValue`, which can never be serialised. */
  function FromTransientValue(c: Shared.Content, addr: AllocId): (v: TaskInput)
    ensures v.SharedValue? && TagOf(v).None? && v.value.content == c
  {
    SharedValue(Shared.SharedValue(None, addr, c))
  }

  /**
   * `TryFrom<&TaskInput>` for `Value<T>` and for `TransientValue<T>`, which share one body: the variant must be
   * `SharedValue` and the content must downcast to `T`. The tag is not consulted.
   */
  function TryIntoValue(v: TaskInput, t: RustTypeId): (r: Result<nat>)
    ensures r.Ok? <==> v.SharedValue? && v.value.content.rustType == t
    ensures r.Ok? ==> v.value.content == Shared.Content(t, r.value)
    ensures !v.SharedValue? ==> r == Err(InvalidType(ValueKind(t)))
    ensures v.SharedValue? && r.Err? ==> r.error == DowncastFailed(t, v.value.content.rustType)
  {
    match v
    case SharedValue(sv) =>
      (match Shared.Downcast(sv.content, t)
       case Some(x) => Ok(x)
       case None => Err(DowncastFailed(t, sv.content.rustType)))
    case _ => Err(InvalidType(ValueKind(t)))
  }

  /**
   * Typed and transient values both round-trip through extraction; a value can be extracted only as its own
   * concrete type; and a reference read from the backend is never extracted as a value.
   */
  lemma ValueExtractionRoundTrip(reg: ValueTypes.Registry, tag: ValueTypeId, t: RustTypeId, t': RustTypeId, x: nat,
                                  addr: AllocId, r: Shared.SharedReference)
    requires tag in reg.types && reg.types[tag].rustType == t && t != t'
    ensures TryIntoValue(FromValue(reg, tag, Shared.Content(t, x), addr), t) == Ok(x)
    ensures TryIntoValue(FromTransientValue(Shared.Content(t, x), addr), t) == Ok(x)
    ensures TryIntoValue(FromValue(reg, tag, Shared.Content(t, x), addr), t') == Err(DowncastFailed(t', t))
    ensures TryIntoValue(SharedReference(r), t) == Err(InvalidType(ValueKind(t)))
  {
  }

  /**
   * End to end: a `Value<T>` whose type can serialise and deserialise in the `magic` form survives construction,
   * serialisation, deserialisation into a new allocation, and extraction as `T`.
   */
  lemma {:induction false} ValueSurvivesSerialization(reg: ValueTypes.Registry, tag: ValueTypeId, t: RustTypeId, x: nat,
                                                      addr: AllocId, addr': AllocId)
    requires ValueTypes.WellFormed(reg) && tag in reg.types && reg.types[tag].rustType == t
    requires reg.types[tag].magicSerialization == ValueTypes.Capability(true, true)
    ensures var v := FromValue(reg, tag, Shared.Content(t, x), addr);
            && Shared.SerializeValue(reg, v.value).Ok?
            && Shared.DeserializeValue(reg, Shared.SerializeValue(reg, v.value).value, addr').Ok?
            && TryIntoValue(SharedValue(Shared.DeserializeValue(reg, Shared.SerializeValue(reg, v.value).value, addr').value), t)
               == Ok(x)
  {
    var v := FromValue(reg, tag, Shared.Content(t, x), addr);
    Shared.ValueRoundTrip(reg, v.value, addr');
  }
}
