# TaskInput: the argument and result values of turbo-tasks

This project models `TaskInput`, the value that flows between turbo-tasks task functions, together with the
two opaque wrappers it carries (`SharedReference`, `SharedValue`), and proves properties of that model in Dafny.

- `base.dfy`: the integer widths of the source (`u32`, `i32`, 64-bit `usize` as newtypes). It also holds the
  identifiers the core stores but does not interpret (task, value type, trait, function, concrete type,
  allocation address), `Option`/`Result`, and the error outcomes. It also holds `RawVc`, the cell reference.
- `value_types.dfy`: the part of the value-type registry the core consults. Each registered type has a global
  name, its traits, its trait-method table and its two serialisation capabilities. There is also the inverse
  lookup from a global name back to a type.
- `shared.dfy`: the wrappers.
  - `SharedReference` equality and ordering go by allocation address. `SharedValue` equality goes by tag and
    content.
  - `downcast`.
  - The serialise/deserialise decisions around the 2-tuple `(global name, payload)`.
- `task_input.dfy`: the `TaskInput` enum, `is_resolved`, `is_nothing`, `get_task_id`, the three trait queries,
  and the derived structural equality.
- `conversions.dfy`: every `From` impl into `TaskInput` and every `TryFrom<&TaskInput>` impl out of it.
- `resolution.dfy`: `resolve_to_value` and `resolve`, as methods with the source's loop.
  - They run against a backend given as a parameter: a map from task to output, and a map from slot to slot
    content.
  - Each method returns its result together with the sequence of backend reads it made.
  - Each method is proved equal to a ghost function (`ValueOf`, `ResolvedOf`). The lemmas state their
    properties: what a successful result looks like, idempotence, positional fan-out, and reads that explain
    failures.

Termination is the one assumption about the backend. The source loops for ever on a cyclic chain of outputs.
The model therefore takes a ghost ranking of tasks (`Ranked`): every output a task's output awaits belongs to a
task of smaller rank. Every backend without such a cycle, anywhere in it, has such a ranking.

## Model

| member | source | states |
|---|---|---|
| `Shared.Downcast` | crates/turbo-tasks/src/task_input.rs:28-35 | succeeds exactly when the requested concrete type is the allocation's, and then gives back its content |
| `Shared.IdentityVersusContent` | crates/turbo-tasks/src/task_input.rs:42-49 | two references to equal content in different allocations are unequal; two values with equal tag and content are equal whatever their allocation (lines 175-179) |
| `Shared.ReferenceEq` | crates/turbo-tasks/src/task_input.rs:42-49 | two references are equal exactly when they differ at most in tag and content, i.e. share the allocation |
| `Shared.ValueEq` | crates/turbo-tasks/src/task_input.rs:175-179 | two values are equal exactly when they differ at most in their allocation, i.e. agree in tag and content |
| `Shared.ReferenceEqImpliesSameContent` | crates/turbo-tasks/src/task_input.rs:42-49 | for two references into one heap (each address holds one content), equality by address implies equal content, and equal content in distinct allocations is still unequal |
| `Shared.ReferenceCmp` | crates/turbo-tasks/src/task_input.rs:51-65 | the order of references is the order of their addresses, and it reports `Equal` exactly when `eq` holds |
| `Shared.ReferenceCmpAntisymmetric` | crates/turbo-tasks/src/task_input.rs:51-65 | comparing in the other direction swaps `Less` and `Greater` and keeps `Equal` |
| `Shared.Encode` | crates/turbo-tasks/src/task_input.rs:76-100 | an untagged wrapper fails with "untyped"; a tagged one serialises exactly when its type registered the serialiser, and then as the pair (global name, payload); otherwise it fails with "not serializable" |
| `Shared.SerializeReference` | crates/turbo-tasks/src/task_input.rs:76-100 | a reference serialises exactly when it is tagged and its type has the `any` serialiser |
| `Shared.Decode` | crates/turbo-tasks/src/task_input.rs:126-156 | reading succeeds exactly when the first element is a registered global name, the type has a deserialiser and a second element of the type's payload follows; on failure the error is, in the order checked: invalid length 0 for an empty tuple, malformed element 0 when the first element is no name, unknown variant for an unregistered name, "not deserializable" when the type has no deserialiser (before the payload is looked at), invalid length 1 when the payload is missing, malformed element 1 for a payload of the wrong shape; on success the tag is the type whose global name was read |
| `Shared.DeserializeReference` | crates/turbo-tasks/src/task_input.rs:112-161 | on success the reference is tagged, its tag matches the content's type, it lives in a new allocation, and the tuple began with that type's global name and the payload; it fails exactly when decoding does, with decoding's error |
| `Shared.SerializeValue` | crates/turbo-tasks/src/task_input.rs:200-224 | a value serialises exactly when it is tagged and its type has the `magic` serialiser; an untagged one fails with "untyped" |
| `Shared.DeserializeValue` | crates/turbo-tasks/src/task_input.rs:226-276 | as for references, with the `magic` deserialiser: on success tagged, well-tagged, in a new allocation and matching the tuple; otherwise decoding's error |
| `Shared.ValueRoundTrip` | crates/turbo-tasks/src/task_input.rs:200-276 | a tagged value whose type can serialise and deserialise reads back with the same tag and content, so it is equal under value equality |
| `Shared.ReferenceRoundTrip` | crates/turbo-tasks/src/task_input.rs:76-161 | a tagged reference reads back with the same tag and content in a new allocation; it is equal to the original under identity equality only when the new address is the old one |
| `Shared.ReferenceRoundTripIsNotIdentical` | crates/turbo-tasks/src/task_input.rs:134-135 | the reference read back lives at an address not in use by the live original, so it is never identity-equal to it |
| `Shared.UntypedNeverSerializes` | crates/turbo-tasks/src/task_input.rs:94-98 | untagged references and values always fail with "untyped" (also lines 218-222) |
| `ValueTypes.GlobalNameRoundTrip` | crates/turbo-tasks/src/task_input.rs:130-131 | in a well-formed registry, looking up a type's global name gives that type back, and no other name does |
| `TaskInputs.IsResolved` | crates/turbo-tasks/src/task_input.rs:397-403 | a `TaskOutput` is never resolved, every variant other than a list or an output is, and a resolved list holds no `TaskOutput` element |
| `TaskInputs.IsResolvedIffAwaitsNothing` | crates/turbo-tasks/src/task_input.rs:397-403 | `is_resolved` holds exactly when no task output is awaited anywhere in the value, including in nested lists |
| `TaskInputs.GetTaskId` | crates/turbo-tasks/src/task_input.rs:332-337 | a task id is returned exactly for `TaskOutput` and `TaskSlot`, and it is the task they name |
| `TaskInputs.IsNothing` | crates/turbo-tasks/src/task_input.rs:405-410 | holds exactly for the `Nothing` sentinel |
| `TaskInputs.NothingIsTerminal` | crates/turbo-tasks/src/task_input.rs:405-410 | `is_nothing` holds only for `Nothing`, which is resolved and carries no task |
| `TaskInputs.ResolvedSlotIsStillIndirection` | crates/turbo-tasks/src/task_input.rs:397-403 | a slot counts as resolved although it is an indirection; every non-list, non-indirection variant is resolved |
| `TaskInputs.GetTraitMethod` | crates/turbo-tasks/src/task_input.rs:339-357 | a function is found exactly when the value is tagged and its type's method table has an entry for (trait, name), and it is that entry; indirections are outside the precondition (they panic) |
| `TaskInputs.HasTrait` | crates/turbo-tasks/src/task_input.rs:359-374 | true exactly when the value is a tagged wrapper whose registered type lists the trait; indirections are outside the precondition (they panic) |
| `TaskInputs.Traits` | crates/turbo-tasks/src/task_input.rs:376-395 | a trait is listed exactly when `has_trait` holds for it |
| `TaskInputs.UntaggedImplementsNothing` | crates/turbo-tasks/src/task_input.rs:339-395 | untagged wrappers and plain variants give `false`, `None` and the empty list |
| `TaskInputs.Equal` | crates/turbo-tasks/src/task_input.rs:278-292 | equal values have the same variant, equal lists the same length, and plain variants (neither list nor wrapper) are equal only when identical |
| `TaskInputs.EqualReflexive` | crates/turbo-tasks/src/task_input.rs:278-292 | the derived equality is reflexive, including through lists of wrappers |
| `TaskInputs.EqualSymmetric` | crates/turbo-tasks/src/task_input.rs:278-292 | the derived equality is symmetric |
| `TaskInputs.EqualTransitive` | crates/turbo-tasks/src/task_input.rs:278-292 | the derived equality is transitive |
| `TaskInputs.EqualListOfWrappers` | crates/turbo-tasks/src/task_input.rs:278-292 | two lists of references are equal exactly when they hold the same allocations position by position |
| `Conversions.FromRawVc` | crates/turbo-tasks/src/task_input.rs:413-420 | a cell reference becomes the matching indirection with the same task |
| `Conversions.TryIntoRawVc` | crates/turbo-tasks/src/task_input.rs:663-672 | extraction succeeds exactly on the two indirections and inverts `From<RawVc>`; otherwise it fails with the slot-reference type error |
| `Conversions.RawVcRoundTrip` | crates/turbo-tasks/src/task_input.rs:663-672 | converting a cell reference in and back out gives it back |
| `Conversions.GetTaskIdMatchesRawVc` | crates/turbo-tasks/src/task_input.rs:332-337 | `get_task_id` is defined exactly where extraction as a cell reference succeeds, and agrees with that reference's task |
| `Conversions.FromSlotContent` | crates/turbo-tasks/src/task_input.rs:422-429 | an empty slot becomes `Nothing`, a filled one a `SharedReference` to its content; both are resolved values |
| `Conversions.FromString` | crates/turbo-tasks/src/task_input.rs:458-468 | a string (or `&str`) becomes a resolved non-indirection |
| `Conversions.FromBool` | crates/turbo-tasks/src/task_input.rs:470-474 | a bool becomes a resolved non-indirection |
| `Conversions.FromI32` | crates/turbo-tasks/src/task_input.rs:476-480 | an `i32` becomes a resolved non-indirection |
| `Conversions.FromU32` | crates/turbo-tasks/src/task_input.rs:482-486 | a `u32` becomes a resolved non-indirection |
| `Conversions.FromUsize` | crates/turbo-tasks/src/task_input.rs:488-492 | a `usize` becomes a resolved non-indirection |
| `Conversions.TryIntoString` | crates/turbo-tasks/src/task_input.rs:527-547 | succeeds exactly on `String`, inverting the `From` impl; otherwise fails with the string type error (`&str` likewise) |
| `Conversions.TryIntoBool` | crates/turbo-tasks/src/task_input.rs:549-558 | succeeds exactly on `Bool`, inverting the `From` impl; otherwise fails with the bool type error |
| `Conversions.TryIntoU32` | crates/turbo-tasks/src/task_input.rs:574-583 | succeeds exactly on `U32`, inverting the `From` impl; otherwise fails with the u32 type error |
| `Conversions.TryIntoI32` | crates/turbo-tasks/src/task_input.rs:585-594 | succeeds exactly on `I32`, inverting the `From` impl; otherwise fails with the i32 type error |
| `Conversions.TryIntoUsize` | crates/turbo-tasks/src/task_input.rs:596-605 | succeeds exactly on `Usize`, inverting the `From` impl; otherwise fails with the usize type error |
| `Conversions.ScalarRoundTrips` | crates/turbo-tasks/src/task_input.rs:458-605 | every string, bool, `u32`, `i32` and `usize` survives conversion in and back out |
| `Conversions.ScalarKindsDoNotMix` | crates/turbo-tasks/src/task_input.rs:574-605 | a `u32` is not read back as `i32`, `usize` or string, even when the number fits, and the error names the kind asked for |
| `Conversions.FromVec` | crates/turbo-tasks/src/task_input.rs:521-525 | a vector becomes a list of the same length whose elements are the converted elements, in order |
| `Conversions.ExtractAll` | crates/turbo-tasks/src/task_input.rs:565-568 | collecting succeeds exactly when every element converts, giving the converted elements in order; a failure is the first failing element's error |
| `Conversions.TryIntoVec` | crates/turbo-tasks/src/task_input.rs:560-572 | extraction needs a `List` (else the list type error) whose every element converts, and gives the converted elements in order |
| `Conversions.VecRoundTrip` | crates/turbo-tasks/src/task_input.rs:521-572 | when elements round-trip, vectors round-trip: same length, same order, same elements |
| `Conversions.BoolVecRoundTrip` | crates/turbo-tasks/src/task_input.rs:549-572 | `Vec<bool>` round-trips |
| `Conversions.FromValue` | crates/turbo-tasks/src/task_input.rs:494-507 | a `Value<T>` becomes a `SharedValue` tagged with `T`'s value type and holding the value; the tag's registered concrete type is the content's, so the result is well tagged |
| `Conversions.FromTransientValue` | crates/turbo-tasks/src/task_input.rs:509-519 | a `TransientValue<T>` becomes an untagged `SharedValue` holding the value |
| `Conversions.TryIntoValue` | crates/turbo-tasks/src/task_input.rs:607-661 | extraction as `Value<T>` or `TransientValue<T>` succeeds exactly on a `SharedValue` whose content is a `T`, and gives that content; a `SharedValue` of another type fails with "expected T got …", and any other variant fails with the type error |
| `Conversions.ValueExtractionRoundTrip` | crates/turbo-tasks/src/task_input.rs:494-661 | typed and transient values round-trip; a value is not extracted as another concrete type; a `SharedReference` is never extracted as a value |
| `Conversions.ValueSurvivesSerialization` | crates/turbo-tasks/src/task_input.rs:494-661 | a `Value<T>` whose type can serialise and deserialise survives construction, serialisation, deserialisation and extraction as `T` |
| `Resolution.ReadSlot` | crates/turbo-tasks/src/task_input.rs:301-302 | a slot read succeeds exactly when the backend answers it, and gives a resolved non-indirection (`Nothing` or a reference) |
| `Resolution.ValueOf` | crates/turbo-tasks/src/task_input.rs:295-307 | a successful result is neither `TaskOutput` nor `TaskSlot`; a value that is neither comes back unchanged with no reads |
| `Resolution.ResolveToValue` | crates/turbo-tasks/src/task_input.rs:295-307 | the loop follows outputs and slots until neither is left, giving exactly `ValueOf`'s result and reads |
| `Resolution.ValueOfExplained` | crates/turbo-tasks/src/task_input.rs:295-307 | on success every read was answered by the backend; on failure the last read was the one the backend could not answer |
| `Resolution.SlotReadOutcome` | crates/turbo-tasks/src/task_input.rs:295-307 | following a slot makes exactly one read: a missing slot is an error, an empty one gives `Nothing`, a filled one its reference |
| `Resolution.ChainCollapses` | crates/turbo-tasks/src/task_input.rs:295-307 | a chain of two outputs ending in a string gives the string after reading both outputs in order |
| `Resolution.Collect` | crates/turbo-tasks/src/task_input.rs:319-325 | joining element results succeeds exactly when every element does, giving a list of the same length with each element's value; a failure is some element's failure |
| `Resolution.ResolvedOf` | crates/turbo-tasks/src/task_input.rs:309-330 | a successful result is resolved (no task output anywhere) |
| `Resolution.Resolve` | crates/turbo-tasks/src/task_input.rs:309-330 | the loop follows top-level outputs, returns a resolved list as it is, and otherwise resolves every element; the result and reads are exactly `ResolvedOf`'s |
| `Resolution.ResolveAll` | crates/turbo-tasks/src/task_input.rs:315-325 | resolving the elements one by one, stopping at the first failure, gives exactly the joined element outcomes |
| `Resolution.ResolvedOfExplained` | crates/turbo-tasks/src/task_input.rs:309-330 | on success every read was answered; on failure the last read was the unanswered one |
| `Resolution.ResolveFixesResolved` | crates/turbo-tasks/src/task_input.rs:309-330 | an already resolved value comes back unchanged without reading the backend |
| `Resolution.ResolveIdempotent` | crates/turbo-tasks/src/task_input.rs:309-330 | resolving a resolved result again changes nothing and reads nothing |
| `Resolution.ResolveListPointwise` | crates/turbo-tasks/src/task_input.rs:315-325 | a list resolves position by position: same length, each position what resolving that element alone gives, success exactly when every element succeeds, and a failure is an element's failure |
| `Resolution.SlotAsymmetry` | crates/turbo-tasks/src/task_input.rs:295-330 | `resolve` leaves a slot untouched without reading, while `resolve_to_value` reads it and gives its content |
| `Resolution.ListFanOut` | crates/turbo-tasks/src/task_input.rs:315-325 | `[TaskOutput(A), TaskOutput(B)]` resolves to the two outputs in their positions, reading A then B |

## Design notes

- Serialisation round trip of `SharedReference`: deserialising builds a new `Arc` (line 135). A reference
  therefore reads back with its tag and content but at a new address. Its `PartialEq` compares addresses, so it
  is equal to the original only by accident (`Shared.ReferenceRoundTrip`). The design intent is a round trip
  equal under the wrapper's own equality. That holds for `SharedValue` (`Shared.ValueRoundTrip`) but not for
  `SharedReference`. The model follows the code.
- `is_resolved` treats `TaskSlot` as resolved (lines 397-403), while the three trait queries panic on it (lines
  342, 362, 379). So `resolve` may return a value on which the trait queries still panic
  (`TaskInputs.ResolvedSlotIsStillIndirection`, `Resolution.SlotAsymmetry`).
- The backend's outputs are modelled as arbitrary `TaskInput` values. The source converts what `read_task_output`
  returns with `.into()`, which is at least as general for the properties proved here.

## Left out

- Concurrency: `try_join_all` runs the element resolutions concurrently. The model runs them in position order
  and stops at the first failure. When several elements fail, it reports the first in position. The order of the
  reads for a list is likewise the sequential one.
- The `turbo_tasks()` handle and the async reads are replaced by the `Backend` parameter. Which errors
  `read_task_output` and `read_task_slot` raise is summarised as "output unavailable" and "slot unavailable".
- `Resolution.ResolveToValue`, `Resolution.Resolve`: termination is proved only for backends with a ranking
  (`Ranked`). The source does not terminate on a cyclic chain of outputs, and the model does not describe that
  divergence. The ranking is demanded of every task in the backend, not only of those reachable from the input.
  It therefore also excludes backends on which the source does terminate: a cycle the resolution never reaches,
  or, for `resolve_to_value`, a task whose output is a list holding its own output (read once, then returned).
- The `Hash` impls (lines 37-41, 183-188) and the derived `Hash` of `TaskInput`: hashing is not modelled.
- The derived `PartialOrd`/`Ord` of `SharedValue` (line 163) and of `TaskInput` (line 279): they order by the
  erased value's dynamic comparison, which the model's abstract content does not carry.
- The derived `Serialize`/`Deserialize` of `TaskInput` (line 279): the enum's own variant encoding is not
  modelled. Only the wrappers' hand-written impls (lines 76-161, 200-276), which the derived impl calls for the
  two opaque variants, are.
- `Display` and `Debug` (lines 67-74, 102-110, 190-198, 431-456): formatting only.
- Serde's concrete encoding: the payload is modelled as the content itself, and elements past the second are
  ignored. Errors the deserializer itself raises for an element are folded into "malformed element". Errors the
  serializer itself raises (the `?` on each tuple element, lines 84-87 and 208-211) are not modelled: `Shared.Encode`
  succeeds whenever the type registered its serialiser.
- The registry's internals: it is a given map from value type to its name, traits, method table and
  capabilities.
- `TaskInputs.Traits`: returns the set of trait ids rather than a `Vec` of `&'static TraitType`, so the order of
  the list is not modelled.
- The erased values inside the wrappers are reduced to a concrete type id and an abstract datum. Dynamic equality
  of `MagicAny` is datum equality.
