/**
 Reference accounting of the event executor over every interleaving of submitting threads, workers and
 shutdown.  Of the TaskExecutor underneath only this is assumed: a successful submission enqueues one
 item, a failing one enqueues nothing, and an enqueued item is passed to exactly one of process and
 release.
 */
module EventExecutor {
  import opened Prelude

  type Event = nat

  /** Where a thread inside `SubmitEvent` has got to. */
  datatype Submission =
    | Admitted(event: Event)      // prepared and an inbound command event
    | Dispatched(event: Event)
    | Referenced(event: Event)    // holds the executor's reference
    | Refused(event: Event)       // the submission failed, the reference is still to be given back

  /** `references` is what the executor holds, with multiplicity. */
  datatype System = System(
    prepared: bool,
    references: multiset<Event>,
    submissions: seq<Submission>,
    queue: seq<Event>,
    processing: seq<Event>)

  datatype Step =
    | Prepare
    | Submit(event: Option<Event>, inbound: bool)
    | Dispatch(thread: nat)
    | Reference(thread: nat)
    | Enqueue(thread: nat)
    | Refuse(thread: nat)
    | GiveBack(thread: nat)
    | TakeWork
    | FinishWork(index: nat)     // the guard's destructor, whatever processing did, registry or none
    | BeginShutdown
    | ReleaseWork(index: nat)    // a queued item reclaimed when the TaskExecutor stops

  const IDLE := System(false, multiset{}, [], [], [])

  function Taken(references: multiset<Event>, e: Event): multiset<Event> {
    references[e := references[e] + 1]
  }

  /** `__unref`; a reference that is not held cannot be given back. */
  function Given(references: multiset<Event>, e: Event): multiset<Event> {
    if references[e] == 0 then references else references[e := references[e] - 1]
  }

  function Do(s: System, step: Step): System {
    match step
    case Prepare => s.(prepared := true)
    case Submit(event, inbound) =>
      if s.prepared && event.Some? && inbound then s.(submissions := s.submissions + [Admitted(event.value)]) else s
    case Dispatch(k) =>
      if k < |s.submissions| && s.submissions[k].Admitted? then
        s.(submissions := s.submissions[k := Dispatched(s.submissions[k].event)])
      else s
    case Reference(k) =>
      if k < |s.submissions| && s.submissions[k].Dispatched? then
        s.(submissions := s.submissions[k := Referenced(s.submissions[k].event)],
           references := Taken(s.references, s.submissions[k].event))
      else s
    case Enqueue(k) =>
      if k < |s.submissions| && s.submissions[k].Referenced? then
        s.(submissions := Without(s.submissions, k), queue := s.queue + [s.submissions[k].event])
      else s
    case Refuse(k) =>
      if k < |s.submissions| && s.submissions[k].Referenced? then
        s.(submissions := s.submissions[k := Refused(s.submissions[k].event)])
      else s
    case GiveBack(k) =>
      if k < |s.submissions| && s.submissions[k].Refused? then
        s.(submissions := Without(s.submissions, k), references := Given(s.references, s.submissions[k].event))
      else s
    case TakeWork =>
      if s.queue != [] then s.(queue := s.queue[1..], processing := s.processing + [s.queue[0]]) else s
    case FinishWork(i) =>
      if i < |s.processing| then
        s.(processing := Without(s.processing, i), references := Given(s.references, s.processing[i]))
      else s
    case BeginShutdown => s.(prepared := false)
    case ReleaseWork(i) =>
      if i < |s.queue| then
        s.(queue := Without(s.queue, i), references := Given(s.references, s.queue[i]))
      else s
  }

  /** The event a step gives a reference back for, if it does. */
  function Unreferences(s: System, step: Step): Option<Event> {
    match step
    case GiveBack(k) => if k < |s.submissions| && s.submissions[k].Refused? then Some(s.submissions[k].event) else None
    case FinishWork(i) => if i < |s.processing| then Some(s.processing[i]) else None
    case ReleaseWork(i) => if i < |s.queue| then Some(s.queue[i]) else None
    case _ => None
  }

  /** Whether a thread holds the executor's reference to `e`. */
  function Holds(submission: Submission, e: Event): nat {
    if (submission.Referenced? || submission.Refused?) && submission.event == e then 1 else 0
  }

  function InFlight(submissions: seq<Submission>, e: Event): nat {
    if submissions == [] then 0
    else InFlight(submissions[..|submissions|-1], e) + Holds(submissions[|submissions|-1], e)
  }

  function Occurrences(items: seq<Event>, e: Event): nat {
    if items == [] then 0
    else Occurrences(items[..|items|-1], e) + if items[|items|-1] == e then 1 else 0
  }

  /** On every event the executor holds one reference for each in-flight submission that has taken it, each
      queued item and each item being processed; and no others. */
  ghost predicate BalancedOn(s: System, e: Event) {
    s.references[e] == InFlight(s.submissions, e) + Occurrences(s.queue, e) + Occurrences(s.processing, e)
  }

  ghost predicate Balanced(s: System) {
    forall e: Event :: BalancedOn(s, e)
  }

  // ----- counting

  lemma {:induction false} InFlightUpdate(submissions: seq<Submission>, k: nat, submission: Submission, e: Event)
    requires k < |submissions|
    ensures InFlight(submissions[k := submission], e) + Holds(submissions[k], e) ==
            InFlight(submissions, e) + Holds(submission, e)
  {
    var n := |submissions| - 1;
    if k == n {
      assert submissions[k := submission][..n] == submissions[..n];
    } else {
      assert submissions[k := submission][..n] == submissions[..n][k := submission];
      InFlightUpdate(submissions[..n], k, submission, e);
    }
  }

  lemma {:induction false} InFlightWithout(submissions: seq<Submission>, k: nat, e: Event)
    requires k < |submissions|
    ensures InFlight(Without(submissions, k), e) + Holds(submissions[k], e) == InFlight(submissions, e)
  {
    var n := |submissions| - 1;
    var rest := Without(submissions, k);
    if k == n {
      assert rest == submissions[..n];
    } else {
      assert rest[..n-1] == Without(submissions[..n], k) && rest[n-1] == submissions[n];
      InFlightWithout(submissions[..n], k, e);
    }
  }

  lemma {:induction false} OccurrencesWithout(items: seq<Event>, i: nat, e: Event)
    requires i < |items|
    ensures Occurrences(Without(items, i), e) + (if items[i] == e then 1 else 0) == Occurrences(items, e)
  {
    var n := |items| - 1;
    var rest := Without(items, i);
    if i == n {
      assert rest == items[..n];
    } else {
      assert rest[..n-1] == Without(items[..n], i) && rest[n-1] == items[n];
      OccurrencesWithout(items[..n], i, e);
    }
  }

  lemma {:induction false} OccurrencesSnoc(items: seq<Event>, x: Event, e: Event)
    ensures Occurrences(items + [x], e) == Occurrences(items, e) + if x == e then 1 else 0
  {
    assert (items + [x])[..|items|] == items;
  }

  // ----- the steps

  /** A thread moves on inside `SubmitEvent`, or leaves it. */
  lemma {:induction false} AdmitBalanced(s: System, event: Option<Event>, inbound: bool, e: Event)
    requires BalancedOn(s, e)
    ensures BalancedOn(Do(s, Submit(event, inbound)), e)
  {
    if s.prepared && event.Some? && inbound {
      assert (s.submissions + [Admitted(event.value)])[..|s.submissions|] == s.submissions;
    }
  }

  lemma {:induction false} DispatchBalanced(s: System, k: nat, e: Event)
    requires BalancedOn(s, e)
    ensures BalancedOn(Do(s, Dispatch(k)), e) && BalancedOn(Do(s, Refuse(k)), e)
  {
    if k < |s.submissions| {
      InFlightUpdate(s.submissions, k, Dispatched(s.submissions[k].event), e);
      InFlightUpdate(s.submissions, k, Refused(s.submissions[k].event), e);
    }
  }

  lemma {:induction false} ReferenceBalanced(s: System, k: nat, e: Event)
    requires BalancedOn(s, e)
    ensures BalancedOn(Do(s, Reference(k)), e)
  {
    if k < |s.submissions| {
      InFlightUpdate(s.submissions, k, Referenced(s.submissions[k].event), e);
    }
  }

  lemma {:induction false} EnqueueBalanced(s: System, k: nat, e: Event)
    requires BalancedOn(s, e)
    ensures BalancedOn(Do(s, Enqueue(k)), e)
  {
    if k < |s.submissions| {
      InFlightWithout(s.submissions, k, e);
      OccurrencesSnoc(s.queue, s.submissions[k].event, e);
    }
  }

  lemma {:induction false} GiveBackBalanced(s: System, k: nat, e: Event)
    requires BalancedOn(s, e) && k < |s.submissions| && s.submissions[k].Refused?
    ensures BalancedOn(Do(s, GiveBack(k)), e)
    ensures s.submissions[k].event == e ==> 0 < s.references[e]
  {
    InFlightWithout(s.submissions, k, e);
  }

  /** Work moves to a worker, is finished, or is reclaimed. */
  lemma {:induction false} TakeWorkBalanced(s: System, e: Event)
    requires BalancedOn(s, e)
    ensures BalancedOn(Do(s, TakeWork), e)
  {
    if s.queue != [] {
      OccurrencesWithout(s.queue, 0, e);
      assert Without(s.queue, 0) == s.queue[1..];
      OccurrencesSnoc(s.processing, s.queue[0], e);
    }
  }

  lemma {:induction false} FinishBalanced(s: System, i: nat, e: Event)
    requires BalancedOn(s, e) && i < |s.processing|
    ensures BalancedOn(Do(s, FinishWork(i)), e)
    ensures s.processing[i] == e ==> 0 < s.references[e]
  {
    var s', x := Do(s, FinishWork(i)), s.processing[i];
    OccurrencesWithout(s.processing, i, e);
    assert s'.processing == Without(s.processing, i) && s'.submissions == s.submissions && s'.queue == s.queue;
    assert s'.references[e] == s.references[e] - if x == e then 1 else 0;
  }

  lemma {:induction false} ReleaseBalanced(s: System, i: nat, e: Event)
    requires BalancedOn(s, e) && i < |s.queue|
    ensures BalancedOn(Do(s, ReleaseWork(i)), e)
    ensures s.queue[i] == e ==> 0 < s.references[e]
  {
    var s', x := Do(s, ReleaseWork(i)), s.queue[i];
    OccurrencesWithout(s.queue, i, e);
    assert s'.queue == Without(s.queue, i) && s'.submissions == s.submissions && s'.processing == s.processing;
    assert s'.references[e] == s.references[e] - if x == e then 1 else 0;
  }

  lemma {:induction false} StepBalancedOn(s: System, step: Step, e: Event)
    requires BalancedOn(s, e)
    ensures BalancedOn(Do(s, step), e)
    ensures Unreferences(s, step) == Some(e) ==> 0 < s.references[e]
  {
    match step {
      case Submit(event, inbound) => AdmitBalanced(s, event, inbound, e);
      case Dispatch(k) => DispatchBalanced(s, k, e);
      case Refuse(k) => DispatchBalanced(s, k, e);
      case Reference(k) => ReferenceBalanced(s, k, e);
      case Enqueue(k) => EnqueueBalanced(s, k, e);
      case GiveBack(k) =>
        if k < |s.submissions| && s.submissions[k].Refused? { GiveBackBalanced(s, k, e); }
      case TakeWork => TakeWorkBalanced(s, e);
      case FinishWork(i) => if i < |s.processing| { FinishBalanced(s, i, e); }
      case ReleaseWork(i) => if i < |s.queue| { ReleaseBalanced(s, i, e); }
      case Prepare =>
      case BeginShutdown =>
    }
  }

  lemma {:induction false} StepBalanced(s: System, step: Step)
    requires Balanced(s)
    ensures Balanced(Do(s, step))
    ensures Unreferences(s, step).Some? ==> Unreferences(s, step).value in s.references
  {
    forall e: Event
      ensures BalancedOn(Do(s, step), e)
      ensures Unreferences(s, step) == Some(e) ==> 0 < s.references[e]
    {
      assert BalancedOn(s, e);
      StepBalancedOn(s, step, e);
    }
  }

  function After(s: System, steps: seq<Step>): System
    decreases |steps|
  {
    if steps == [] then s else After(Do(s, steps[0]), steps[1..])
  }

  /** Over every interleaving the books balance, and no step gives back a reference that is not held. */
  lemma {:induction false} ReferencesConserved(s: System, steps: seq<Step>, next: Step)
    requires Balanced(s)
    ensures Balanced(IDLE)
    ensures Balanced(After(s, steps))
    ensures Unreferences(After(s, steps), next).Some? ==>
              Unreferences(After(s, steps), next).value in After(s, steps).references
    decreases |steps|
  {
    if steps == [] {
      StepBalanced(s, next);
    } else {
      StepBalanced(s, steps[0]);
      ReferencesConserved(Do(s, steps[0]), steps[1..], next);
    }
  }

  /** Once no thread is inside a submission and the queue and the workers have drained, the executor
      holds no reference at all. */
  lemma {:induction false} NothingHeldAfterDrain(steps: seq<Step>)
    ensures var s := After(IDLE, steps);
            s.submissions == [] && s.queue == [] && s.processing == [] ==>
              forall e: Event :: s.references[e] == 0
  {
    ReferencesConserved(IDLE, steps, Prepare);
    var s := After(IDLE, steps);
    if s.submissions == [] && s.queue == [] && s.processing == [] {
      forall e: Event ensures s.references[e] == 0 {
        assert BalancedOn(s, e);
      }
    }
  }

  // ----- admission

  /** How many threads are inside a submission of the event, how far ever they have got. */
  function Submitting(submissions: seq<Submission>, e: Event): nat {
    if submissions == [] then 0
    else
      Submitting(submissions[..|submissions|-1], e) + if submissions[|submissions|-1].event == e then 1 else 0
  }

  /** How often the event is somewhere in the executor. */
  function Present(s: System, e: Event): nat {
    Submitting(s.submissions, e) + Occurrences(s.queue, e) + Occurrences(s.processing, e)
  }

  lemma {:induction false} SubmittingUpdate(submissions: seq<Submission>, k: nat, submission: Submission, e: Event)
    requires k < |submissions| && submission.event == submissions[k].event
    ensures Submitting(submissions[k := submission], e) == Submitting(submissions, e)
  {
    var n := |submissions| - 1;
    if k == n {
      assert submissions[k := submission][..n] == submissions[..n];
    } else {
      assert submissions[k := submission][..n] == submissions[..n][k := submission];
      SubmittingUpdate(submissions[..n], k, submission, e);
    }
  }

  lemma {:induction false} SubmittingWithout(submissions: seq<Submission>, k: nat, e: Event)
    requires k < |submissions|
    ensures Submitting(Without(submissions, k), e) + (if submissions[k].event == e then 1 else 0) ==
            Submitting(submissions, e)
  {
    var n := |submissions| - 1;
    var rest := Without(submissions, k);
    if k == n {
      assert rest == submissions[..n];
    } else {
      assert rest[..n-1] == Without(submissions[..n], k) && rest[n-1] == submissions[n];
      SubmittingWithout(submissions[..n], k, e);
    }
  }

  /** A submission enters the executor exactly when that is prepared and the event is an inbound command event;
      then it is one more of that event, and nothing else changes. */
  lemma {:induction false} AdmittedIff(s: System, event: Option<Event>, inbound: bool, e: Event)
    ensures Present(Do(s, Submit(event, inbound)), e) ==
            Present(s, e) + if s.prepared && inbound && event == Some(e) then 1 else 0
    ensures Do(s, Submit(event, inbound)).(submissions := s.submissions) == s
  {
    if s.prepared && event.Some? && inbound {
      assert (s.submissions + [Admitted(event.value)])[..|s.submissions|] == s.submissions;
    }
  }

  /** No other step brings an event in. */
  lemma {:induction false} OnlySubmitAdmits(s: System, step: Step, e: Event)
    requires !step.Submit?
    ensures Present(Do(s, step), e) <= Present(s, e)
  {
    match step {
      case Dispatch(k) =>
        if k < |s.submissions| { SubmittingUpdate(s.submissions, k, Dispatched(s.submissions[k].event), e); }
      case Reference(k) =>
        if k < |s.submissions| { SubmittingUpdate(s.submissions, k, Referenced(s.submissions[k].event), e); }
      case Refuse(k) =>
        if k < |s.submissions| { SubmittingUpdate(s.submissions, k, Refused(s.submissions[k].event), e); }
      case Enqueue(k) =>
        if k < |s.submissions| {
          SubmittingWithout(s.submissions, k, e);
          OccurrencesSnoc(s.queue, s.submissions[k].event, e);
        }
      case GiveBack(k) => if k < |s.submissions| { SubmittingWithout(s.submissions, k, e); }
      case TakeWork =>
        if s.queue != [] {
          OccurrencesWithout(s.queue, 0, e);
          assert Without(s.queue, 0) == s.queue[1..];
          OccurrencesSnoc(s.processing, s.queue[0], e);
        }
      case FinishWork(i) => if i < |s.processing| { OccurrencesWithout(s.processing, i, e); }
      case ReleaseWork(i) => if i < |s.queue| { OccurrencesWithout(s.queue, i, e); }
      case Prepare =>
      case BeginShutdown =>
    }
  }

  lemma {:induction false} UnpreparedAdmitsNothing(s: System, steps: seq<Step>, e: Event)
    requires !s.prepared && forall i :: 0 <= i < |steps| ==> !steps[i].Prepare?
    ensures !After(s, steps).prepared && Present(After(s, steps), e) <= Present(s, e)
    decreases |steps|
  {
    if steps != [] {
      if steps[0].Submit? {
        AdmittedIff(s, steps[0].event, steps[0].inbound, e);
      } else {
        OnlySubmitAdmits(s, steps[0], e);
      }
      assert forall i :: 0 <= i < |steps[1..]| ==> steps[1..][i] == steps[i+1];
      UnpreparedAdmitsNothing(Do(s, steps[0]), steps[1..], e);
    }
  }

  /** After shutdown has begun, and until the executor is prepared again, no event comes in: of each there is
      only ever less. */
  lemma {:induction false} ShutdownAdmitsNothing(s: System, steps: seq<Step>, e: Event)
    requires forall i :: 0 <= i < |steps| ==> !steps[i].Prepare?
    ensures !After(Do(s, BeginShutdown), steps).prepared
    ensures Present(After(Do(s, BeginShutdown), steps), e) <= Present(s, e)
  {
    UnpreparedAdmitsNothing(Do(s, BeginShutdown), steps, e);
  }
}
