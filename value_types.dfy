/**
 * The read-only view this core has of the process-wide type registry: per registered value type its name, its
 * stable global name, the traits it implements, its trait-method table, and which serialisation capabilities it
 * registered.
 */
module ValueTypes {
  import opened Base

  /** One serialisation capability: a serialiser and a deserialise seed, each possibly absent. */
  datatype Capability = Capability(serialize: bool, deserialize: bool)

  datatype ValueType = ValueType(
    name: string,
    globalName: string,
    /** the concrete type whose values carry this tag */
    rustType: RustTypeId,
    traits: set<TraitTypeId>,
    traitMethods: map<(TraitTypeId, string), FunctionId>,
    /** used by `SharedReference` (`any_as_serializable`, `get_any_deserialize_seed`) */
    anySerialization: Capability,
    /** used by `SharedValue` (`magic_as_serializable`, `get_magic_deserialize_seed`) */
    magicSerialization: Capability
  )

  /** `types` is `get_value_type`; `byGlobalName` is `get_value_type_id_by_global_name`. */
  datatype Registry = Registry(types: map<ValueTypeId, ValueType>, byGlobalName: map<string, ValueTypeId>)

  /** Global names and tags are in one-to-one correspondence, as registration makes them. */
  ghost predicate WellFormed(reg: Registry) {
    && (forall ty :: ty in reg.types ==>
          reg.types[ty].globalName in reg.byGlobalName && reg.byGlobalName[reg.types[ty].globalName] == ty)
    && (forall n :: n in reg.byGlobalName ==>
          reg.byGlobalName[n] in reg.types && reg.types[reg.byGlobalName[n]].globalName == n)
  }

  /** `get_value_type_global_name`. */
  function GlobalName(reg: Registry, ty: ValueTypeId): string
    requires ty in reg.types
  {
    reg.types[ty].globalName
  }

  /** `get_value_type_id_by_global_name`. */
  function TypeIdByGlobalName(reg: Registry, name: string): Option<ValueTypeId> {
    if name in reg.byGlobalName then Some(reg.byGlobalName[name]) else None
  }

  /** In a well-formed registry the global name of a type leads back to that type, and only to it. */
  lemma GlobalNameRoundTrip(reg: Registry, ty: ValueTypeId, name: string)
    requires WellFormed(reg) && ty in reg.types
    ensures TypeIdByGlobalName(reg, GlobalName(reg, ty)) == Some(ty)
    ensures TypeIdByGlobalName(reg, name) == Some(ty) <==> name == GlobalName(reg, ty)
  {
  }
}
