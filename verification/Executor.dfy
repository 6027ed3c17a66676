/**
 The executor's action loop (`Apply` in go/internal/apply/apply.go): fail-isolation, the write-ahead bracket
 around each driver call, the binding projection, and the run's worst outcome.

 The driver is an arbitrary oracle: one fate per action. `RunActions` is the specification of the loop,
 `ApplyRun` the loop itself with the variables it updates.
 */
module Executor {
  import opened Plan

  datatype Status = StatusSucceeded | StatusFailed | StatusUnknown

  datatype Response = Response(
    status: Status, providerId: string, operationId: string, retryable: bool, outputsUsable: bool)

  /** A refusal before the intent is written, or a driver call with its response. */
  datatype Fate = RefusedBefore(unresolved: bool) | Responds(response: Response)

  datatype Context = Context(actions: seq<Action>, bound: map<string, string>, clock: int, fate: string -> Fate)

  datatype Class = Succeeded | Skipped | Throttled | Failed | Unknown

  function Severity(c: Class): nat {
    match c
    case Succeeded => 0
    case Skipped => 1
    case Throttled => 2
    case Failed => 3
    case Unknown => 4
  }

  datatype Code = NoCode | ProviderAgainLater | ReconcileRequired | ApplyFailed | ReferenceUnresolved | ProviderRefused

  datatype Resource = Resource(providerId: string, generation: int, resourceType: string)

  datatype Tombstone = Tombstone(providerId: string, generation: int, resourceType: string, deletedAt: int,
                                 operationId: string)

  datatype Binding = Binding(resources: seq<Resource>, tombstones: seq<Tombstone>, replaced: seq<string>)

  const UNBOUND := Binding([], [], [])

  /** One append to the ledger, or one driver call. */
  datatype Item =
    | Intent(cap: string, op: string)
    | Called(aid: string)
    | Terminal(cap: string, op: string, status: string)
    | Bound(aid: string, cap: string, binding: Binding)
    | Claimed(aid: string, cap: string, providerId: string)
    | LeaseTaken | Started | FinishedMark | FailedMark | LeaseFreed

  datatype Run = Run(
    outcome: map<string, Class>,
    worst: Class,
    worstCode: Code,
    bindings: map<string, Binding>,
    results: map<string, string>,
    trace: seq<Item>)

  function Start(bindings: map<string, Binding>, trace: seq<Item>): Run {
    Run(map[], Succeeded, NoCode, bindings, map[], trace)
  }

  // ---- one driver response -------------------------------------------------

  /** The id a create must not come back with: the plan's own, or the one the last delete of its capability pins. */
  function OldId(actions: seq<Action>, a: Action): string {
    if a.successorOf != "" then a.successorOf else ReplacedId(actions, a.capability)
  }

  const ADOPTED_OLD := Response(StatusFailed, "", "", false, true)

  /** The response after the replacement backstop and the declared-output check. */
  function Effective(cx: Context, a: Action, r: Response): Response {
    if a.operation.Create? && r.status.StatusSucceeded? then
      if OldId(cx.actions, a) != "" && r.providerId == OldId(cx.actions, a) then ADOPTED_OLD
      else if !r.outputsUsable then r.(status := StatusUnknown)
      else r
    else r
  }

  function ReceiptStatus(r: Response): string {
    if r.retryable then "retryable"
    else match r.status
      case StatusSucceeded => "succeeded"
      case StatusFailed => "failed"
      case StatusUnknown => "unknown"
  }

  function ClassOf(r: Response): Class {
    match r.status
    case StatusSucceeded => Succeeded
    case StatusFailed => Failed
    case StatusUnknown => if r.retryable then Throttled else Unknown
  }

  function CodeOf(c: Class): Code {
    match c
    case Throttled => ProviderAgainLater
    case Unknown => ReconcileRequired
    case Failed => ApplyFailed
    case _ => NoCode
  }

  function RefusalCode(unresolved: bool): Code {
    if unresolved then ReferenceUnresolved else ProviderRefused
  }

  function OpId(a: Action): string {
    "intent-" + a.key
  }

  // ---- bindings ------------------------------------------------------------

  function CurrentId(b: Binding): string {
    if b.resources == [] then "" else b.resources[0].providerId
  }

  function NextGeneration(b: Binding, a: Action): int {
    if a.targetGeneration >= 1 then a.targetGeneration
    else if b.resources == [] then 1
    else b.resources[0].generation + 1
  }

  /** The full projection written after a successful create, update or delete. */
  function NextBinding(cx: Context, b: Binding, a: Action, r: Response): Binding {
    if a.operation.Delete? then
      Binding(
        if CurrentId(b) == "" || CurrentId(b) == a.targetId then [] else b.resources,
        b.tombstones + [Tombstone(a.targetId, a.targetGeneration, a.target, cx.clock, r.operationId)],
        b.replaced)
    else
      Binding(
        [Resource(r.providerId, NextGeneration(b, a), a.target)],
        b.tombstones,
        b.replaced + if a.successorOf != "" then [a.successorOf] else [])
  }

  function BindingOf(bindings: map<string, Binding>, cap: string): Binding {
    if cap in bindings then bindings[cap] else UNBOUND
  }

  function BoundId(cx: Context, cap: string): string {
    if cap in cx.bound then cx.bound[cap] else ""
  }

  // ---- one action ----------------------------------------------------------

  /** A missing outcome reads as success, as a missing key of the source's map does. */
  function OutcomeOf(outcome: map<string, Class>, d: string): Class {
    if d in outcome then outcome[d] else Succeeded
  }

  predicate DepFailed(outcome: map<string, Class>, a: Action) {
    exists d :: d in a.deps && d != "" && OutcomeOf(outcome, d) != Succeeded
  }

  function Fail(r: Run, aid: string, cls: Class, code: Code): Run {
    var worse := Severity(cls) > Severity(r.worst);
    r.(outcome := r.outcome[aid := cls],
       worst := if worse then cls else r.worst,
       worstCode := if worse then code else r.worstCode)
  }

  function Succeed(r: Run, aid: string): Run {
    r.(outcome := r.outcome[aid := Succeeded])
  }

  /** The items of one attempted action. */
  function Segment(cx: Context, bindings: map<string, Binding>, a: Action, resp: Response): seq<Item> {
    var terminal := Terminal(a.capability, OpId(a), ReceiptStatus(resp));
    [Intent(a.capability, OpId(a)), Called(a.id)] +
    if !resp.status.StatusSucceeded? then [terminal]
    else if a.operation.Claim? then [Claimed(a.id, a.capability, BoundId(cx, a.capability)), terminal]
    else [Bound(a.id, a.capability, NextBinding(cx, BindingOf(bindings, a.capability), a, resp)), terminal]
  }

  function Attempt(cx: Context, r: Run, a: Action, resp: Response): Run {
    var r' := r.(trace := r.trace + Segment(cx, r.bindings, a, resp));
    if !resp.status.StatusSucceeded? then Fail(r', a.id, ClassOf(resp), CodeOf(ClassOf(resp)))
    else if a.operation.Claim? then
      Succeed(r'.(results := r.results[a.capability := BoundId(cx, a.capability)]), a.id)
    else
      var was := BindingOf(r.bindings, a.capability);
      var next := NextBinding(cx, was, a, resp);
      var results :=
        if !a.operation.Delete? then r.results[a.capability := resp.providerId]
        else if next.resources == [] then r.results - {a.capability}
        else r.results;
      Succeed(r'.(bindings := r.bindings[a.capability := next], results := results), a.id)
  }

  function StepAction(cx: Context, r: Run, a: Action): Run {
    if DepFailed(r.outcome, a) then Fail(r, a.id, Skipped, NoCode)
    else match cx.fate(a.id)
      case RefusedBefore(unresolved) => Fail(r, a.id, Failed, RefusalCode(unresolved))
      case Responds(resp) => Attempt(cx, r, a, Effective(cx, a, resp))
  }

  /** The loop over the actions in execution order. */
  function RunActions(cx: Context, r: Run, todo: seq<Action>): Run {
    if todo == [] then r
    else StepAction(cx, RunActions(cx, r, todo[..|todo| - 1]), todo[|todo| - 1])
  }

  /** The run-level marker and the release that follow the loop. */
  function Close(r: Run): Run {
    r.(trace := r.trace + [if r.worst.Succeeded? then FinishedMark else FailedMark, LeaseFreed])
  }

  /** A whole run: lease, start marker, every action, run marker, release. */
  function WholeRun(cx: Context, bindings: map<string, Binding>, todo: seq<Action>): Run {
    Close(RunActions(cx, Start(bindings, [LeaseTaken, Started]), todo))
  }

  function ExitCode(r: Run): int {
    if r.worst.Succeeded? then 0 else 4
  }

  // ---- the loop with its variables -----------------------------------------

  class ApplyRun {
    const cx: Context
    var outcome: map<string, Class>
    var worst: Class
    var worstCode: Code
    var bindings: map<string, Binding>
    var results: map<string, string>
    var trace: seq<Item>

    ghost function View(): Run
      reads this
    {
      Run(outcome, worst, worstCode, bindings, results, trace)
    }

    constructor (cx: Context, bindings: map<string, Binding>)
      ensures this.cx == cx && View() == Start(bindings, [])
    {
      this.cx := cx;
      outcome, worst, worstCode := map[], Succeeded, NoCode;
      this.bindings, results, trace := bindings, map[], [];
    }

    /** `depFailed`: the first dependency that did not succeed, or "". */
    method FirstFailed(a: Action) returns (dep: string)
      ensures dep != "" <==> DepFailed(outcome, a)
      ensures dep != "" <==> exists d :: d in a.deps && d != "" && d in outcome && outcome[d] != Succeeded
      ensures dep != "" ==> dep in a.deps && dep in outcome && outcome[dep] != Succeeded
    {
      for i := 0 to |a.deps|
        invariant forall k :: 0 <= k < i ==> a.deps[k] == "" || OutcomeOf(outcome, a.deps[k]) == Succeeded
      {
        var d := a.deps[i];
        if d != "" && OutcomeOf(outcome, d) != Succeeded { return d; }
      }
      return "";
    }

    /** `fail`: keep the worst class, and the code of the first action at that class. */
    method Record(aid: string, cls: Class, code: Code)
      modifies this`outcome, this`worst, this`worstCode
      ensures View() == Fail(old(View()), aid, cls, code)
    {
      outcome := outcome[aid := cls];
      if Severity(cls) > Severity(worst) { worst, worstCode := cls, code; }
    }

    method Append(item: Item)
      modifies this`trace
      ensures View() == old(View()).(trace := old(trace) + [item])
    {
      trace := trace + [item];
    }

    /** The bracketed driver call and what its response writes. */
    method Perform(a: Action, answer: Response)
      modifies this
      ensures View() == Attempt(cx, old(View()), a, Effective(cx, a, answer))
    {
      hide Effective, NextBinding;
      Append(Intent(a.capability, OpId(a)));
      Append(Called(a.id));
      var resp := Effective(cx, a, answer);
      var terminal := Terminal(a.capability, OpId(a), ReceiptStatus(resp));
      hide ReceiptStatus, OpId, CodeOf;
      ghost var begun := trace;
      if !resp.status.StatusSucceeded? {
        Append(terminal);
        Record(a.id, ClassOf(resp), CodeOf(ClassOf(resp)));
        assert trace == begun + [terminal];
      } else if a.operation.Claim? {
        var claimed := Claimed(a.id, a.capability, BoundId(cx, a.capability));
        Append(claimed);
        Append(terminal);
        results := results[a.capability := BoundId(cx, a.capability)];
        outcome := outcome[a.id := Succeeded];
        assert trace == begun + [claimed, terminal];
      } else {
        var next := NextBinding(cx, BindingOf(bindings, a.capability), a, resp);
        if !a.operation.Delete? {
          results := results[a.capability := resp.providerId];
        } else if next.resources == [] {
          results := results - {a.capability};
        }
        Append(Bound(a.id, a.capability, next));
        bindings := bindings[a.capability := next];
        Append(terminal);
        outcome := outcome[a.id := Succeeded];
        assert trace == begun + [Bound(a.id, a.capability, next), terminal];
      }
      assert trace == old(trace) + Segment(cx, old(bindings), a, resp);
    }

    method DoAction(a: Action)
      modifies this
      ensures View() == StepAction(cx, old(View()), a)
    {
      var dep := FirstFailed(a);
      if dep != "" {
        Record(a.id, Skipped, NoCode);
        return;
      }
      match cx.fate(a.id) {
        case RefusedBefore(unresolved) => Record(a.id, Failed, RefusalCode(unresolved));
        case Responds(answer) => Perform(a, answer);
      }
    }

    /** The executed part of `Apply`, from the lease to the release. */
    method Execute(todo: seq<Action>)
      requires View() == Start(bindings, [])
      modifies this
      ensures View() == WholeRun(cx, old(bindings), todo)
    {
      Append(LeaseTaken);
      Append(Started);
      ghost var start := View();
      assert start == Start(old(bindings), [LeaseTaken, Started]);
      for i := 0 to |todo|
        invariant View() == RunActions(cx, start, todo[..i])
      {
        assert todo[..i + 1][..i] == todo[..i];
        DoAction(todo[i]);
      }
      assert todo[..|todo|] == todo;
      ghost var done := View();
      Append(if worst.Succeeded? then FinishedMark else FailedMark);
      Append(LeaseFreed);
      assert trace == Close(done).trace;
    }
  }
}
