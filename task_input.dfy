/**
 * `TaskInput`, the tagged value that flows between tasks, with its structural queries, the trait queries that
 * go through the registry, and the equality its derived `PartialEq` gives it.
 */
module TaskInputs {
  import opened Base
  import opened ValueTypes
  import Shared

  datatype TaskInput =
    | TaskOutput(task: TaskId)
    | TaskSlot(task: TaskId, index: Usize)
    | List(items: seq<TaskInput>)
    | String(str: string)
    | Bool(b: bool)
    | Usize(usize: Usize)
    | I32(i32: I32)
    | U32(u32: U32)
    | Nothing
    | SharedValue(value: Shared.SharedValue)
    | SharedReference(reference: Shared.SharedReference)

  /** The two lazy-reference variants, which the trait queries refuse. */
  predicate IsIndirection(v: TaskInput) {
    v.TaskOutput? || v.TaskSlot?
  }

  // ---------------------------------------------------------------------------------------------------------
  // Structural queries

  /** `is_resolved`: no `TaskOutput` at the top or inside nested lists; slots count as resolved. */
  predicate IsResolved(v: TaskInput): (r: bool)
    ensures r ==> !v.TaskOutput?
    ensures !v.TaskOutput? && !v.List? ==> r
    ensures r && v.List? ==> forall i | 0 <= i < |v.items| :: !v.items[i].TaskOutput?
  {
    match v
    case TaskOutput(_) => false
    case List(items) => forall i | 0 <= i < |items| :: IsResolved(items[i])
    case _ => true
  }

  /** Reference definition: somewhere in `v`, possibly nested in lists, the output of task `t` is awaited. */
  ghost predicate AwaitsOutput(v: TaskInput, t: TaskId) {
    match v
    case TaskOutput(t') => t' == t
    case List(items) => exists i | 0 <= i < |items| :: AwaitsOutput(items[i], t)
    case _ => false
  }

  /** A value is resolved exactly when it awaits the output of no task at any depth. */
  lemma {:induction false} IsResolvedIffAwaitsNothing(v: TaskInput)
    ensures IsResolved(v) <==> forall t :: !AwaitsOutput(v, t)
  {
    match v
    case List(items) =>
      forall i | 0 <= i < |items| ensures IsResolved(items[i]) <==> forall t :: !AwaitsOutput(items[i], t) {
        IsResolvedIffAwaitsNothing(items[i]);
      }
      if !IsResolved(v) {
        var i :| 0 <= i < |items| && !IsResolved(items[i]);
        var t :| AwaitsOutput(items[i], t);
        assert AwaitsOutput(v, t);
      }
    case TaskOutput(t) =>
      assert AwaitsOutput(v, t);
    case _ =>
  }

  /** `is_nothing`. */
  predicate IsNothing(v: TaskInput): (r: bool)
    ensures r <==> v == Nothing
  {
    v.Nothing?
  }

  /** `get_task_id`: the task behind either indirection. */
  function GetTaskId(v: TaskInput): (r: Option<TaskId>)
    ensures r.Some? <==> IsIndirection(v)
    ensures r.Some? ==> v.task == r.value
  {
    match v
    case TaskOutput(t) => Some(t)
    case TaskSlot(t, _) => Some(t)
    case _ => None
  }

  /** The sentinel is resolved, carries no task and is no indirection. */
  lemma NothingIsTerminal()
    ensures IsNothing(Nothing) && IsResolved(Nothing) && GetTaskId(Nothing) == None
    ensures forall v: TaskInput :: IsNothing(v) ==> v == Nothing
  {
  }

  /**
   * `is_resolved` accepts slots, while the trait queries refuse them: a resolved value may still break their
   * precondition.
   */
  lemma ResolvedSlotIsStillIndirection(t: TaskId, i: Usize)
    ensures IsResolved(TaskSlot(t, i)) && IsIndirection(TaskSlot(t, i))
    ensures forall v :: !IsIndirection(v) && !v.List? ==> IsResolved(v)
  {
  }

  // ---------------------------------------------------------------------------------------------------------
  // Trait queries: each panics on an indirection, which the model states as a precondition

  /** The registry tag of an opaque variant; absent for an untagged wrapper and for every other variant. */
  function TagOf(v: TaskInput): Option<ValueTypeId> {
    match v
    case SharedValue(sv) => sv.ty
    case SharedReference(sr) => sr.ty
    case _ => None
  }

  /** Every tag a value carries was handed out by the registry. */
  ghost predicate Registered(reg: Registry, v: TaskInput) {
    TagOf(v).Some? ==> TagOf(v).value in reg.types
  }

  /** `has_trait`. */
  function HasTrait(reg: Registry, v: TaskInput, traitType: TraitTypeId): (r: bool)
    requires !IsIndirection(v) && Registered(reg, v)
    ensures r <==> TagOf(v).Some? && traitType in reg.types[TagOf(v).value].traits
    ensures r ==> v.SharedValue? || v.SharedReference?
  {
    match TagOf(v)
    case Some(ty) => traitType in reg.types[ty].traits
    case None => false
  }

  /** `get_trait_method`: the function registered for method `name` of `trait` on the value's type. */
  function GetTraitMethod(reg: Registry, v: TaskInput, traitType: TraitTypeId, name: string): (r: Option<FunctionId>)
    requires !IsIndirection(v) && Registered(reg, v)
    ensures r.Some? <==> TagOf(v).Some? && (traitType, name) in reg.types[TagOf(v).value].traitMethods
    ensures r.Some? ==> r.value == reg.types[TagOf(v).value].traitMethods[(traitType, name)]
  {
    match TagOf(v)
    case Some(ty) => if (traitType, name) in reg.types[ty].traitMethods then Some(reg.types[ty].traitMethods[(traitType, name)]) else None
    case None => None
  }

  /** `traits`: the traits the value's registered type implements (as a set: the order is the registry's). */
  function Traits(reg: Registry, v: TaskInput): (r: set<TraitTypeId>)
    requires !IsIndirection(v) && Registered(reg, v)
    ensures forall traitType :: traitType in r <==> HasTrait(reg, v, traitType)
  {
    match TagOf(v)
    case Some(ty) => reg.types[ty].traits
    case None => {}
  }

  /** Untagged wrappers and plain variants implement nothing: `false`, `None` and the empty list. */
  lemma UntaggedImplementsNothing(reg: Registry, v: TaskInput, traitType: TraitTypeId, name: string)
    requires !IsIndirection(v) && Registered(reg, v)
    requires TagOf(v).None?
    ensures !HasTrait(reg, v, traitType) && GetTraitMethod(reg, v, traitType, name).None? && Traits(reg, v) == {}
  {
  }

  // ---------------------------------------------------------------------------------------------------------
  // Equality: the derived `PartialEq`, which defers to the wrappers' own equalities

  /**
   * The derived `PartialEq`: variants compare first, lists element by element, the wrappers by their own
   * equality, and every other variant by its fields.
   */
  predicate Equal(a: TaskInput, b: TaskInput): (r: bool)
    ensures r ==> (a.List? <==> b.List?) && (a.SharedValue? <==> b.SharedValue?)
                  && (a.SharedReference? <==> b.SharedReference?)
    ensures r && a.List? ==> |a.items| == |b.items|
    ensures r && !a.List? && !a.SharedValue? && !a.SharedReference? ==> a == b
  {
    match (a, b)
    case (List(xs), List(ys)) => |xs| == |ys| && forall i | 0 <= i < |xs| :: Equal(xs[i], ys[i])
    case (SharedValue(x), SharedValue(y)) => Shared.ValueEq(x, y)
    case (SharedReference(x), SharedReference(y)) => Shared.ReferenceEq(x, y)
    case _ => a == b
  }

  lemma {:induction false} EqualReflexive(a: TaskInput)
    ensures Equal(a, a)
  {
    match a
    case List(xs) =>
      forall i | 0 <= i < |xs| ensures Equal(xs[i], xs[i]) {
        EqualReflexive(xs[i]);
      }
    case _ =>
  }

  lemma {:induction false} EqualSymmetric(a: TaskInput, b: TaskInput)
    requires Equal(a, b)
    ensures Equal(b, a)
  {
    match (a, b)
    case (List(xs), List(ys)) =>
      forall i | 0 <= i < |ys| ensures Equal(ys[i], xs[i]) {
        EqualSymmetric(xs[i], ys[i]);
      }
    case _ =>
  }

  lemma {:induction false} EqualTransitive(a: TaskInput, b: TaskInput, c: TaskInput)
    requires Equal(a, b) && Equal(b, c)
    ensures Equal(a, c)
  {
    match (a, b, c)
    case (List(xs), List(ys), List(zs)) =>
      forall i | 0 <= i < |xs| ensures Equal(xs[i], zs[i]) {
        EqualTransitive(xs[i], ys[i], zs[i]);
      }
    case _ =>
  }

  /**
   * Equality looks through lists to the wrappers: two lists of references are equal exactly when they hold the
   * same allocations position by position, whatever the contents.
   */
  lemma {:induction false} EqualListOfWrappers(rs: seq<Shared.SharedReference>, rs': seq<Shared.SharedReference>)
    requires |rs| == |rs'|
    ensures Equal(List(seq(|rs|, i requires 0 <= i < |rs| => SharedReference(rs[i]))),
                  List(seq(|rs'|, i requires 0 <= i < |rs'| => SharedReference(rs'[i]))))
        <==> forall i | 0 <= i < |rs| :: rs[i].alloc == rs'[i].alloc
  {
    var a := seq(|rs|, i requires 0 <= i < |rs| => SharedReference(rs[i]));
    var b := seq(|rs'|, i requires 0 <= i < |rs'| => SharedReference(rs'[i]));
    assert forall i | 0 <= i < |rs| :: Equal(a[i], b[i]) <==> rs[i].alloc == rs'[i].alloc;
  }
}
