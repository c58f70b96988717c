/** Scalar widths, identifiers and the error outcomes shared by the whole model. */
module Base {

  /** Rust `u32`. */
  newtype U32 = x: int | 0 <= x < 0x1_0000_0000
  /** Rust `i32`. */
  newtype I32 = x: int | -0x8000_0000 <= x < 0x8000_0000
  /** Rust `usize` on a 64-bit target. */
  newtype Usize = x: int | 0 <= x < 0x1_0000_0000_0000_0000

  /** Identifier of a task instance, allocated by the scheduler; this core only stores and compares it. */
  type TaskId = nat
  /** Process-local tag of a registered value type. */
  type ValueTypeId = nat
  /** Identifier of a registered trait. */
  type TraitTypeId = nat
  /** Identifier of a registered native function (the target of dynamic trait dispatch). */
  type FunctionId = nat
  /** The concrete type behind a type-erased value (what `Any::type_id` reports). */
  type RustTypeId = nat
  /** The address of one shared (`Arc`) allocation. */
  type AllocId = nat

  datatype Option<T> = None | Some(value: T)

  /** The native shape an extraction asked for, named in its type-mismatch error. */
  datatype Kind =
    | StringKind
    | BoolKind
    | ListKind
    | U32Kind
    | I32Kind
    | UsizeKind
    | SlotRefKind
    | ValueKind(expected: RustTypeId)

  datatype Error =
      /** "invalid task input type, expected <kind>" */
    | InvalidType(expected: Kind)
      /** "invalid task input type, expected <T> got <value>": the variant matched, the downcast did not */
    | DowncastFailed(wanted: RustTypeId, actual: RustTypeId)
      /** the backend could not produce the output of a task */
    | OutputUnavailable(task: TaskId)
      /** the backend could not read a slot of a task */
    | SlotUnavailable(task: TaskId, index: Usize)
      /** "untyped values are not serializable" */
    | Untyped
      /** "<value> is not serializable": the type registered no serialiser */
    | NotSerializable(tag: ValueTypeId)
      /** "<ty> is not deserializable": the type registered no deserialiser */
    | NotDeserializable(tag: ValueTypeId)
      /** serde's unknown_variant: the global name is not registered */
    | UnknownVariant(name: string)
      /** serde's invalid_length: the tuple ended after `length` elements */
    | InvalidLength(length: nat)
      /** an element of the tuple has the wrong shape (serde's own element error) */
    | MalformedElement(position: nat)

  datatype Result<T> = Ok(value: T) | Err(error: Error)
}

/** Cell references: the lazy handles a task hands out for its output or for one of its cells. */
module Vc {
  import opened Base

  datatype RawVc =
    | TaskOutput(task: TaskId)
    | TaskSlot(task: TaskId, index: Usize)
}
