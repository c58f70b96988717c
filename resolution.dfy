/**
 * The resolution protocol. `resolve_to_value` follows a chain of `TaskOutput` and `TaskSlot` indirections
 * through backend reads until the value is neither; `resolve` follows only `TaskOutput`, and when it reaches a
 * list with an unresolved element it resolves every element. Each operation is a method with the source's
 * loop, proved equal to a ghost function that gives the result together with the backend reads it performed.
 *
 * The backend is a pair of maps. Nothing in the source bounds the chains; the model assumes a rank on tasks
 * that decreases from a task to every task whose output its own output awaits (a cyclic backend would make
 * the source loop forever).
 */
module Resolution {
  import opened Base
  import Shared
  import opened TaskInputs
  import Conversions

  /** What `read_task_output` and `read_task_slot` can see: a missing key is a failed read. */
  datatype Backend = Backend(
    outputs: map<TaskId, TaskInput>,
    slots: map<(TaskId, Usize), Option<Shared.SharedReference>>
  )

  /** One backend read, in the order the resolution performs them. */
  datatype Read = OutputRead(task: TaskId) | SlotRead(task: TaskId, index: Usize)

  /** A resolution's result together with the trace of backend reads it performed. */
  datatype Outcome = Outcome(result: Result<TaskInput>, trace: seq<Read>)

  function Prepend(rs: seq<Read>, o: Outcome): Outcome {
    Outcome(o.result, rs + o.trace)
  }

  /** The backend can answer this read. */
  predicate Answers(b: Backend, rd: Read) {
    match rd
    case OutputRead(t) => t in b.outputs
    case SlotRead(t, i) => (t, i) in b.slots
  }

  /**
   * Errors are never invented or swallowed: a failed outcome ends with a read the backend could not answer,
   * and a successful one made only reads the backend answered.
   */
  ghost predicate ExplainedByReads(b: Backend, o: Outcome) {
    && (o.result.Ok? ==> forall k | 0 <= k < |o.trace| :: Answers(b, o.trace[k]))
    && (o.result.Err? ==> |o.trace| > 0 && !Answers(b, o.trace[|o.trace| - 1]))
  }

  /** `read_task_slot(..).into()`: the slot content as a `TaskInput`, or the read's error. */
  function ReadSlot(b: Backend, t: TaskId, i: Usize): (r: Result<TaskInput>)
    ensures r.Ok? <==> Answers(b, SlotRead(t, i))
    ensures r.Ok? ==> !IsIndirection(r.value) && IsResolved(r.value)
    ensures r.Err? ==> r.error == SlotUnavailable(t, i)
  {
    if (t, i) in b.slots then Ok(Conversions.FromSlotContent(b.slots[(t, i)])) else Err(SlotUnavailable(t, i))
  }

  /** Every task whose output the output of `t` awaits, at any depth, ranks below `t`. */
  ghost predicate Ranked(b: Backend, rank: TaskId -> nat) {
    forall t, t' :: t in b.outputs && AwaitsOutput(b.outputs[t], t') ==> rank(t') < rank(t)
  }

  // ---------------------------------------------------------------------------------------------------------
  // resolve_to_value

  /** The termination measure of `resolve_to_value`: the length a chain can still have. */
  ghost function ChainDepth(v: TaskInput, rank: TaskId -> nat): nat {
    match v
    case TaskOutput(t) => rank(t) + 2
    case TaskSlot(_, _) => 1
    case _ => 0
  }

  /** What `resolve_to_value` computes: the end of the indirection chain starting at `v`. */
  ghost function ValueOf(b: Backend, v: TaskInput, rank: TaskId -> nat): (o: Outcome)
    requires Ranked(b, rank)
    ensures o.result.Ok? ==> !IsIndirection(o.result.value)
    ensures !IsIndirection(v) ==> o == Outcome(Ok(v), [])
    decreases ChainDepth(v, rank)
  {
    match v
    case TaskOutput(t) =>
      if t !in b.outputs then Outcome(Err(OutputUnavailable(t)), [OutputRead(t)])
      else
        var next := b.outputs[t];
        assert next.TaskOutput? ==> AwaitsOutput(next, next.task);
        Prepend([OutputRead(t)], ValueOf(b, next, rank))
    case TaskSlot(t, i) => Outcome(ReadSlot(b, t, i), [SlotRead(t, i)])
    case _ => Outcome(Ok(v), [])
  }

  /** `TaskInput::resolve_to_value`. */
  method ResolveToValue(b: Backend, v: TaskInput, ghost rank: TaskId -> nat) returns (r: Result<TaskInput>, trace: seq<Read>)
    requires Ranked(b, rank)
    ensures Outcome(r, trace) == ValueOf(b, v, rank)
    ensures r.Ok? ==> !IsIndirection(r.value)
  {
    var current := v;
    trace := [];
    while true
      invariant ValueOf(b, v, rank) == Prepend(trace, ValueOf(b, current, rank))
      decreases ChainDepth(current, rank)
    {
      match current
      case TaskOutput(t) =>
        trace := trace + [OutputRead(t)];
        if t !in b.outputs {
          r := Err(OutputUnavailable(t));
          return;
        }
        assert b.outputs[t].TaskOutput? ==> AwaitsOutput(b.outputs[t], b.outputs[t].task);
        assert ValueOf(b, current, rank) == Prepend([OutputRead(t)], ValueOf(b, b.outputs[t], rank));
        current := b.outputs[t];
      case TaskSlot(t, i) =>
        trace := trace + [SlotRead(t, i)];
        var read := ReadSlot(b, t, i);
        assert ValueOf(b, current, rank) == Outcome(read, [SlotRead(t, i)]);
        if read.Err? {
          r := read;
          return;
        }
        current := read.value;
      case _ =>
        r := Ok(current);
        return;
    }
  }

  lemma {:induction false} ValueOfExplained(b: Backend, v: TaskInput, rank: TaskId -> nat)
    requires Ranked(b, rank)
    ensures ExplainedByReads(b, ValueOf(b, v, rank))
    decreases ChainDepth(v, rank)
  {
    if v.TaskOutput? && v.task in b.outputs {
      var next := b.outputs[v.task];
      assert next.TaskOutput? ==> AwaitsOutput(next, next.task);
      ValueOfExplained(b, next, rank);
    }
  }

  /** A slot is read once: an empty slot yields `Nothing`, a filled one the reference it holds. */
  lemma SlotReadOutcome(b: Backend, t: TaskId, i: Usize, rank: TaskId -> nat)
    requires Ranked(b, rank)
    ensures ValueOf(b, TaskSlot(t, i), rank).trace == [SlotRead(t, i)]
    ensures (t, i) !in b.slots ==> ValueOf(b, TaskSlot(t, i), rank).result == Err(SlotUnavailable(t, i))
    ensures (t, i) in b.slots && b.slots[(t, i)].None? ==> ValueOf(b, TaskSlot(t, i), rank).result == Ok(Nothing)
    ensures (t, i) in b.slots && b.slots[(t, i)].Some? ==>
      ValueOf(b, TaskSlot(t, i), rank).result == Ok(SharedReference(b.slots[(t, i)].value))
  {
  }

  /** A chain: the output of A is `TaskOutput(B)`, B's is a string; two reads reach the string. */
  lemma ChainCollapses(a: TaskId, c: TaskId, s: string)
    requires a != c
    ensures var b := Backend(map[a := TaskOutput(c), c := String(s)], map[]);
            var rank := (t: TaskId) => if t == a then 1 else 0;
            Ranked(b, rank) && ValueOf(b, TaskOutput(a), rank) == Outcome(Ok(String(s)), [OutputRead(a), OutputRead(c)])
  {
    var b := Backend(map[a := TaskOutput(c), c := String(s)], map[]);
    var rank := (t: TaskId) => if t == a then 1 else 0;
    assert Ranked(b, rank);
    assert ValueOf(b, String(s), rank) == Outcome(Ok(String(s)), []);
    assert ValueOf(b, TaskOutput(c), rank) == Outcome(Ok(String(s)), [OutputRead(c)]);
  }

  // ---------------------------------------------------------------------------------------------------------
  // resolve

  /** The largest element of `s`, 0 for the empty sequence. */
  function MaxOf(s: seq<nat>): (m: nat)
    ensures forall i | 0 <= i < |s| :: s[i] <= m
    ensures |s| == 0 ==> m == 0
    ensures |s| > 0 ==> exists i | 0 <= i < |s| :: s[i] == m
  {
    if |s| == 0 then 0
    else
      var m := MaxOf(s[1..]);
      if s[0] >= m then s[0]
      else
        assert exists i | 0 <= i < |s[1..]| :: s[1..][i] == m;
        ghost var i :| 0 <= i < |s[1..]| && s[1..][i] == m;
        assert s[i + 1] == m;
        m
  }

  /** One more than the highest rank of a task `v` awaits: the termination measure of `resolve`. */
  ghost function MaxRank(v: TaskInput, rank: TaskId -> nat): nat {
    match v
    case TaskOutput(t) => rank(t) + 1
    case List(items) => MaxOf(seq(|items|, i requires 0 <= i < |items| => MaxRank(items[i], rank)))
    case _ => 0
  }

  lemma {:induction false} MaxRankOfElement(items: seq<TaskInput>, rank: TaskId -> nat, i: nat)
    requires i < |items|
    ensures MaxRank(items[i], rank) <= MaxRank(List(items), rank)
  {
    var s := seq(|items|, j requires 0 <= j < |items| => MaxRank(items[j], rank));
    assert s[i] == MaxRank(items[i], rank);
  }

  lemma {:induction false} MaxRankBound(v: TaskInput, rank: TaskId -> nat, k: nat)
    requires forall t :: AwaitsOutput(v, t) ==> rank(t) < k
    ensures MaxRank(v, rank) <= k
  {
    match v
    case TaskOutput(t) =>
      assert AwaitsOutput(v, t);
    case List(items) =>
      var s := seq(|items|, j requires 0 <= j < |items| => MaxRank(items[j], rank));
      forall j | 0 <= j < |items| ensures s[j] <= k {
        forall t | AwaitsOutput(items[j], t) ensures rank(t) < k {
          assert AwaitsOutput(v, t);
        }
        MaxRankBound(items[j], rank, k);
      }
    case _ =>
  }

  /** The fan-in of `try_join_all`, taken in position order: all results as a list, or the first failure. */
  function Collect(outs: seq<Outcome>): (o: Outcome)
    ensures o.result.Ok? <==> forall i | 0 <= i < |outs| :: outs[i].result.Ok?
    ensures o.result.Ok? ==> o.result.value.List? && |o.result.value.items| == |outs|
    ensures o.result.Ok? ==> forall i | 0 <= i < |outs| :: outs[i].result == Ok(o.result.value.items[i])
    ensures o.result.Err? ==> exists i | 0 <= i < |outs| :: outs[i].result == o.result
  {
    if outs == [] then Outcome(Ok(List([])), [])
    else
      var prefix := outs[..|outs| - 1];
      var init := Collect(prefix);
      var last := outs[|outs| - 1];
      if init.result.Err? then
        ghost var i :| 0 <= i < |prefix| && prefix[i].result == init.result;
        assert outs[i] == prefix[i];
        init
      else if last.result.Err? then Outcome(last.result, init.trace + last.trace)
      else Outcome(Ok(List(init.result.value.items + [last.result.value])), init.trace + last.trace)
  }

  /** Collecting keeps every outcome explained by its reads: the failing element's failed read comes last. */
  lemma {:induction false} CollectExplained(b: Backend, outs: seq<Outcome>)
    requires forall i | 0 <= i < |outs| :: ExplainedByReads(b, outs[i])
    ensures ExplainedByReads(b, Collect(outs))
  {
    if outs != [] {
      CollectExplained(b, outs[..|outs| - 1]);
    }
  }

  /** Once a prefix has failed, the later elements change nothing. */
  lemma {:induction false} CollectStopsAtFailure(outs: seq<Outcome>, k: nat)
    requires k <= |outs| && Collect(outs[..k]).result.Err?
    ensures Collect(outs) == Collect(outs[..k])
    decreases |outs| - k
  {
    if k < |outs| {
      assert outs[..k + 1][..k] == outs[..k];
      CollectStopsAtFailure(outs, k + 1);
    } else {
      assert outs[..k] == outs;
    }
  }

  /** What `resolve` computes: outputs chased, and every element of a reached list with unresolved parts resolved. */
  ghost function ResolvedOf(b: Backend, v: TaskInput, rank: TaskId -> nat): (o: Outcome)
    requires Ranked(b, rank)
    ensures o.result.Ok? ==> IsResolved(o.result.value)
    decreases MaxRank(v, rank), v, 1
  {
    match v
    case TaskOutput(t) =>
      if t !in b.outputs then Outcome(Err(OutputUnavailable(t)), [OutputRead(t)])
      else
        MaxRankBound(b.outputs[t], rank, rank(t));
        Prepend([OutputRead(t)], ResolvedOf(b, b.outputs[t], rank))
    case List(items) =>
      if forall i | 0 <= i < |items| :: IsResolved(items[i]) then Outcome(Ok(v), [])
      else Collect(ElementOutcomes(b, items, rank))
    case _ => Outcome(Ok(v), [])
  }

  /** The outcome of resolving each element of a list on its own. */
  ghost function ElementOutcomes(b: Backend, items: seq<TaskInput>, rank: TaskId -> nat): (outs: seq<Outcome>)
    requires Ranked(b, rank)
    ensures |outs| == |items|
    decreases MaxRank(List(items), rank), List(items), 0
  {
    seq(|items|, i requires 0 <= i < |items| => MaxRankOfElement(items, rank, i); ResolvedOf(b, items[i], rank))
  }

  lemma {:induction false} ResolvedOfExplained(b: Backend, v: TaskInput, rank: TaskId -> nat)
    requires Ranked(b, rank)
    ensures ExplainedByReads(b, ResolvedOf(b, v, rank))
    decreases MaxRank(v, rank), v
  {
    match v
    case TaskOutput(t) =>
      if t in b.outputs {
        MaxRankBound(b.outputs[t], rank, rank(t));
        ResolvedOfExplained(b, b.outputs[t], rank);
      }
    case List(items) =>
      var outs := ElementOutcomes(b, items, rank);
      forall i | 0 <= i < |items| ensures ExplainedByReads(b, outs[i]) {
        MaxRankOfElement(items, rank, i);
        ResolvedOfExplained(b, items[i], rank);
      }
      CollectExplained(b, outs);
    case _ =>
  }

  /** `TaskInput::resolve`. */
  method Resolve(b: Backend, v: TaskInput, ghost rank: TaskId -> nat) returns (r: Result<TaskInput>, trace: seq<Read>)
    requires Ranked(b, rank)
    ensures Outcome(r, trace) == ResolvedOf(b, v, rank)
    ensures r.Ok? ==> IsResolved(r.value)
    decreases MaxRank(v, rank), v, 1
  {
    var current := v;
    trace := [];
    while true
      invariant ResolvedOf(b, v, rank) == Prepend(trace, ResolvedOf(b, current, rank))
      invariant current == v || MaxRank(current, rank) < MaxRank(v, rank)
      decreases MaxRank(current, rank)
    {
      match current
      case TaskOutput(t) =>
        trace := trace + [OutputRead(t)];
        if t !in b.outputs {
          r := Err(OutputUnavailable(t));
          return;
        }
        MaxRankBound(b.outputs[t], rank, rank(t));
        current := b.outputs[t];
      case List(items) =>
        if forall i | 0 <= i < |items| :: IsResolved(items[i]) {
          r := Ok(current);
          return;
        }
        var elementTrace;
        r, elementTrace := ResolveAll(b, items, rank);
        trace := trace + elementTrace;
        return;
      case _ =>
        r := Ok(current);
        return;
    }
  }

  /**
   * `resolve_all`: every element resolved, collected in position order. The source awaits the elements
   * concurrently with `try_join_all`; the model resolves them one after the other and stops at the first failure.
   */
  method ResolveAll(b: Backend, items: seq<TaskInput>, ghost rank: TaskId -> nat) returns (r: Result<TaskInput>, trace: seq<Read>)
    requires Ranked(b, rank)
    ensures Outcome(r, trace) == Collect(ElementOutcomes(b, items, rank))
    decreases MaxRank(List(items), rank), List(items), 0
  {
    ghost var outs := ElementOutcomes(b, items, rank);
    var resolved: seq<TaskInput> := [];
    trace := [];
    var k := 0;
    while k < |items|
      invariant 0 <= k <= |items|
      invariant Collect(outs[..k]) == Outcome(Ok(List(resolved)), trace)
    {
      MaxRankOfElement(items, rank, k);
      var x, rd := Resolve(b, items[k], rank);
      assert outs[..k + 1][..k] == outs[..k];
      if x.Err? {
        CollectStopsAtFailure(outs, k + 1);
        r := x;
        trace := trace + rd;
        return;
      }
      resolved := resolved + [x.value];
      trace := trace + rd;
      k := k + 1;
    }
    assert outs[..k] == outs;
    r := Ok(List(resolved));
  }

  // ---------------------------------------------------------------------------------------------------------
  // Properties of resolve

  /** A value that is already resolved comes back unchanged without a read: the fast path, slots included. */
  lemma ResolveFixesResolved(b: Backend, v: TaskInput, rank: TaskId -> nat)
    requires Ranked(b, rank) && IsResolved(v)
    ensures ResolvedOf(b, v, rank) == Outcome(Ok(v), [])
  {
  }

  /** Resolving a resolved result again reads nothing and changes nothing. */
  lemma ResolveIdempotent(b: Backend, v: TaskInput, rank: TaskId -> nat)
    requires Ranked(b, rank) && ResolvedOf(b, v, rank).result.Ok?
    ensures ResolvedOf(b, ResolvedOf(b, v, rank).result.value, rank) == Outcome(ResolvedOf(b, v, rank).result, [])
  {
    ResolveFixesResolved(b, ResolvedOf(b, v, rank).result.value, rank);
  }

  /**
   * A list resolves position by position: the result has the list's length and holds at each position what
   * resolving that element alone gives, and a failure is the failure of some element.
   */
  lemma {:induction false} ResolveListPointwise(b: Backend, items: seq<TaskInput>, rank: TaskId -> nat)
    requires Ranked(b, rank)
    ensures var o := ResolvedOf(b, List(items), rank);
            o.result.Ok? ==>
              (&& o.result.value.List? && |o.result.value.items| == |items|
               && forall i | 0 <= i < |items| :: ResolvedOf(b, items[i], rank).result == Ok(o.result.value.items[i]))
    ensures var o := ResolvedOf(b, List(items), rank);
            o.result.Ok? <==> forall i | 0 <= i < |items| :: ResolvedOf(b, items[i], rank).result.Ok?
    ensures var o := ResolvedOf(b, List(items), rank);
            o.result.Err? ==> exists i | 0 <= i < |items| :: ResolvedOf(b, items[i], rank).result == o.result
  {
    if forall i | 0 <= i < |items| :: IsResolved(items[i]) {
      forall i | 0 <= i < |items| ensures ResolvedOf(b, items[i], rank) == Outcome(Ok(items[i]), []) {
        ResolveFixesResolved(b, items[i], rank);
      }
    } else {
      var outs := ElementOutcomes(b, items, rank);
      assert forall i | 0 <= i < |items| :: outs[i] == ResolvedOf(b, items[i], rank);
    }
  }

  /**
   * `resolve` stops at a slot, `resolve_to_value` reads it: the asymmetry between the two entry points.
   */
  lemma SlotAsymmetry(t: TaskId, i: Usize, r: Shared.SharedReference)
    ensures var b := Backend(map[], map[(t, i) := Some(r)]);
            var rank := (_: TaskId) => 0;
            && Ranked(b, rank)
            && ResolvedOf(b, TaskSlot(t, i), rank) == Outcome(Ok(TaskSlot(t, i)), [])
            && ValueOf(b, TaskSlot(t, i), rank) == Outcome(Ok(SharedReference(r)), [SlotRead(t, i)])
  {
  }

  /** Resolving `[TaskOutput(A), TaskOutput(B)]` reads both outputs and keeps the positions. */
  lemma ListFanOut(a: TaskId, c: TaskId)
    requires a != c
    ensures var b := Backend(map[a := Usize(1), c := Usize(2)], map[]);
            var rank := (_: TaskId) => 0;
            && Ranked(b, rank)
            && ResolvedOf(b, List([TaskOutput(a), TaskOutput(c)]), rank)
               == Outcome(Ok(List([Usize(1), Usize(2)])), [OutputRead(a), OutputRead(c)])
  {
    var b := Backend(map[a := Usize(1), c := Usize(2)], map[]);
    var rank := (_: TaskId) => 0;
    assert Ranked(b, rank);
    var items := [TaskOutput(a), TaskOutput(c)];
    assert !IsResolved(items[0]);
    var outs := ElementOutcomes(b, items, rank);
    assert ResolvedOf(b, Usize(1), rank) == Outcome(Ok(Usize(1)), []);
    assert ResolvedOf(b, Usize(2), rank) == Outcome(Ok(Usize(2)), []);
    assert outs[0] == ResolvedOf(b, TaskOutput(a), rank) == Outcome(Ok(Usize(1)), [OutputRead(a)]);
    assert outs[1] == ResolvedOf(b, TaskOutput(c), rank) == Outcome(Ok(Usize(2)), [OutputRead(c)]);
    var first := outs[..1];
    assert first[..0] == [] && first[0] == outs[0];
    assert Collect(first[..0]) == Outcome(Ok(List([])), []);
    assert [] + [Usize(1)] == [Usize(1)];
    assert Collect(first) == Outcome(Ok(List([Usize(1)])), [OutputRead(a)]);
    assert |outs| == 2 && outs[..|outs| - 1] == first && outs[|outs| - 1] == outs[1];
    assert [Usize(1)] + [Usize(2)] == [Usize(1), Usize(2)];
    assert [OutputRead(a)] + [OutputRead(c)] == [OutputRead(a), OutputRead(c)];
    assert Collect(outs) == Outcome(Ok(List([Usize(1), Usize(2)])), [OutputRead(a), OutputRead(c)]);
  }
}
