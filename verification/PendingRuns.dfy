/**
 Every interleaving of Add, Complete and Expire, with expiry callbacks running after the lock has been
 released and possibly calling the pool themselves.

 Each operation takes effect in one step, under the lock; the snapshot an `Expire` takes is then
 delivered one entry at a time, with anything in between.  For the book-keeping every accepted request
 gets a serial number, so that an id may be used again and its requests still be told apart.
 */
module PendingRuns {
  import opened Prelude
  import opened PendingRequests
  import opened PendingMap

  datatype Step =
    | Add(id: nat, destination: CommandOriginAddress, deadline: nat, mode: ResponseMode)
    | Complete(id: nat, final: bool)
    | Expire(now: nat)
    | Deliver(batch: nat)

  datatype System = System(
    slots: seq<PendingRequest>,
    serials: seq<nat>,               // of the request in each slot, where there is one
    requests: seq<PendingRequest>,   // every accepted request, by serial, as it was accepted
    responses: seq<nat>,             // non-final responses seen, by serial
    completed: seq<nat>,             // serials released by a completion
    batches: seq<seq<nat>>,          // serials removed by each Expire and not yet delivered
    delivered: seq<nat>)             // serials passed to an expiry callback

  function Initial(capacity: nat): System {
    System(seq(capacity, _ => EMPTY), seq(capacity, _ => 0), [], [], [], [], [])
  }

  predicate Shaped(s: System) {
    && |s.serials| == |s.slots| && |s.responses| == |s.requests|
    && forall i :: 0 <= i < |s.slots| && s.slots[i].active ==> s.serials[i] < |s.requests|
  }

  /** The serials of the due slots, in table order. */
  function DueSerials(slots: seq<PendingRequest>, serials: seq<nat>, now: nat): seq<nat>
    requires |serials| == |slots|
  {
    if slots == [] then []
    else
      var n := |slots| - 1;
      var front := DueSerials(slots[..n], serials[..n], now);
      if Due(slots[n], now) then front + [serials[n]] else front
  }

  function Do(s: System, step: Step): System
    requires Shaped(s)
  {
    match step
    case Add(id, destination, deadline, mode) =>
      var request := Fresh(id, destination, deadline, mode);
      var (status, slots) := AddTo(s.slots, request);
      if status != Success then s
      else
        s.(slots := slots, serials := s.serials[FirstFree(s.slots) := |s.requests|],
           requests := s.requests + [request], responses := s.responses + [0])
    case Complete(id, final) =>
      var (status, slots) := CompleteIn(s.slots, id, final);
      if status != Success then s
      else
        var i := FirstWith(s.slots, id);
        FirstWithSpec(s.slots, id);
        var serial := s.serials[i];
        if Releases(s.slots[i], final) then s.(slots := slots, completed := s.completed + [serial])
        else s.(slots := slots, responses := s.responses[serial := s.responses[serial] + 1])
    case Expire(now) =>
      s.(slots := Unexpired(s.slots, now), batches := s.batches + [DueSerials(s.slots, s.serials, now)])
    case Deliver(batch) =>
      if batch < |s.batches| && s.batches[batch] != [] then
        s.(delivered := s.delivered + [s.batches[batch][0]], batches := s.batches[batch := s.batches[batch][1..]])
      else s
  }

  // ----- where the accepted requests are

  /** How many active slots hold the request with this serial. */
  function ActiveWith(slots: seq<PendingRequest>, serials: seq<nat>, serial: nat): nat
    requires |serials| == |slots|
  {
    if slots == [] then 0
    else
      var n := |slots| - 1;
      ActiveWith(slots[..n], serials[..n], serial) + if slots[n].active && serials[n] == serial then 1 else 0
  }

  function Occurrences(serials: seq<nat>, serial: nat): nat {
    if serials == [] then 0
    else Occurrences(serials[..|serials|-1], serial) + if serials[|serials|-1] == serial then 1 else 0
  }

  function Undelivered(batches: seq<seq<nat>>, serial: nat): nat {
    if batches == [] then 0
    else Undelivered(batches[..|batches|-1], serial) + Occurrences(batches[|batches|-1], serial)
  }

  function UndeliveredTotal(batches: seq<seq<nat>>): nat {
    if batches == [] then 0
    else UndeliveredTotal(batches[..|batches|-1]) + |batches[|batches|-1]|
  }

  /** In how many places the request with this serial is. */
  function Places(s: System, serial: nat): nat
    requires Shaped(s)
  {
    ActiveWith(s.slots, s.serials, serial) + Occurrences(s.completed, serial)
    + Undelivered(s.batches, serial) + Occurrences(s.delivered, serial)
  }

  /** An accepted request is in exactly one place, any other serial in none. */
  predicate PlacedOnce(s: System, serial: nat)
    requires Shaped(s)
  {
    Places(s, serial) == if serial < |s.requests| then 1 else 0
  }

  predicate TotalsAgree(s: System) {
    |s.requests| == CountActive(s.slots) + |s.completed| + UndeliveredTotal(s.batches) + |s.delivered|
  }

  /** The request in the slot is the accepted one, with its responses counted in 16 bits. */
  predicate Faithful(s: System, i: nat)
    requires Shaped(s)
  {
    i < |s.slots| && s.slots[i].active ==>
      s.slots[i] == s.requests[s.serials[i]].(responseCount := s.responses[s.serials[i]] % COUNTER)
  }

  ghost predicate Conserved(s: System) {
    && Shaped(s)
    && UniqueIds(s.slots)
    && TotalsAgree(s)
    && (forall serial: nat :: PlacedOnce(s, serial))
    && (forall i: nat :: Faithful(s, i))
  }

  // ----- counting

  lemma {:induction false} ActiveWithUpdate(slots: seq<PendingRequest>, serials: seq<nat>, i: nat,
                                            slot: PendingRequest, to: nat, serial: nat)
    requires |serials| == |slots| && i < |slots|
    ensures ActiveWith(slots[i := slot], serials[i := to], serial)
            + (if slots[i].active && serials[i] == serial then 1 else 0) ==
            ActiveWith(slots, serials, serial) + (if slot.active && to == serial then 1 else 0)
    ensures CountActive(slots[i := slot]) + (if slots[i].active then 1 else 0) ==
            CountActive(slots) + (if slot.active then 1 else 0)
  {
    var n := |slots| - 1;
    if i == n {
      assert slots[i := slot][..n] == slots[..n] && serials[i := to][..n] == serials[..n];
    } else {
      assert slots[i := slot][..n] == slots[..n][i := slot] && serials[i := to][..n] == serials[..n][i := to];
      ActiveWithUpdate(slots[..n], serials[..n], i, slot, to, serial);
    }
  }

  lemma {:induction false} ActiveWithExpire(slots: seq<PendingRequest>, serials: seq<nat>, now: nat, serial: nat)
    requires |serials| == |slots|
    ensures ActiveWith(slots, serials, serial) ==
            ActiveWith(Unexpired(slots, now), serials, serial) + Occurrences(DueSerials(slots, serials, now), serial)
    ensures CountActive(slots) == CountActive(Unexpired(slots, now)) + |DueSerials(slots, serials, now)|
  {
    if slots != [] {
      var n := |slots| - 1;
      ActiveWithExpire(slots[..n], serials[..n], now, serial);
      assert Unexpired(slots, now)[..n] == Unexpired(slots[..n], now);
    }
  }

  lemma {:induction false} OccurrencesTail(serials: seq<nat>, serial: nat)
    requires serials != []
    ensures Occurrences(serials, serial) == Occurrences(serials[1..], serial) + if serials[0] == serial then 1 else 0
  {
    if |serials| == 1 {
      assert serials[..0] == [] && serials[1..] == [];
    } else {
      var n := |serials| - 1;
      OccurrencesTail(serials[..n], serial);
      assert serials[1..][..n-1] == serials[..n][1..];
    }
  }

  lemma {:induction false} UndeliveredUpdate(batches: seq<seq<nat>>, b: nat, batch: seq<nat>, serial: nat)
    requires b < |batches|
    ensures Undelivered(batches[b := batch], serial) + Occurrences(batches[b], serial) ==
            Undelivered(batches, serial) + Occurrences(batch, serial)
    ensures UndeliveredTotal(batches[b := batch]) + |batches[b]| == UndeliveredTotal(batches) + |batch|
  {
    var n := |batches| - 1;
    if b == n {
      assert batches[b := batch][..n] == batches[..n];
    } else {
      assert batches[b := batch][..n] == batches[..n][b := batch];
      UndeliveredUpdate(batches[..n], b, batch, serial);
    }
  }

  lemma {:induction false} ActiveWithAtLeast(slots: seq<PendingRequest>, serials: seq<nat>, i: nat, j: nat)
    requires |serials| == |slots| && i <= j < |slots| && slots[i].active && slots[j].active && serials[i] == serials[j]
    ensures (if i == j then 1 else 2) <= ActiveWith(slots, serials, serials[i])
  {
    var n := |slots| - 1;
    if j < n {
      ActiveWithAtLeast(slots[..n], serials[..n], i, j);
    } else if i < n {
      ActiveWithAtLeast(slots[..n], serials[..n], i, i);
    }
  }

  /** An active slot's serial belongs to that slot alone. */
  lemma {:induction false} SerialsApart(s: System, i: nat, j: nat)
    requires Conserved(s) && i < j < |s.slots| && s.slots[i].active && s.slots[j].active
    ensures s.serials[i] != s.serials[j]
  {
    assert PlacedOnce(s, s.serials[i]);
    if s.serials[i] == s.serials[j] {
      ActiveWithAtLeast(s.slots, s.serials, i, j);
    }
  }

  // ----- every step keeps every request accounted for

  lemma {:induction false} AddPlaces(s: System, step: Step, serial: nat)
    requires Conserved(s) && step.Add?
    requires AddTo(s.slots, Fresh(step.id, step.destination, step.deadline, step.mode)).0 == Success
    ensures Shaped(Do(s, step)) && PlacedOnce(Do(s, step), serial) && TotalsAgree(Do(s, step))
  {
    FirstFreeSpec(s.slots);
    ActiveWithUpdate(s.slots, s.serials, FirstFree(s.slots),
                     Fresh(step.id, step.destination, step.deadline, step.mode), |s.requests|, serial);
    assert PlacedOnce(s, serial);
  }

  lemma {:induction false} AddConserves(s: System, step: Step)
    requires Conserved(s) && step.Add?
    ensures Conserved(Do(s, step))
  {
    var request := Fresh(step.id, step.destination, step.deadline, step.mode);
    if AddTo(s.slots, request).0 == Success {
      var t := Do(s, step);
      assert UniqueIds(t.slots) by { AddRefines(s.slots, request); }
      AddPlaces(s, step, 0);
      forall serial: nat ensures PlacedOnce(t, serial) {
        AddPlaces(s, step, serial);
      }
      forall j: nat ensures Faithful(t, j) {
        assert Faithful(s, j);
      }
    }
  }

  lemma {:induction false} CompletePlaces(s: System, step: Step, serial: nat)
    requires Conserved(s) && step.Complete?
    ensures Shaped(Do(s, step)) && PlacedOnce(Do(s, step), serial) && TotalsAgree(Do(s, step))
  {
    FirstWithSpec(s.slots, step.id);
    assert PlacedOnce(s, serial);
    var i := FirstWith(s.slots, step.id);
    if i < |s.slots| {
      var slot := Do(s, step).slots[i];
      ActiveWithUpdate(s.slots, s.serials, i, slot, s.serials[i], serial);
      assert s.serials[i := s.serials[i]] == s.serials;
    }
  }

  lemma {:induction false} CompleteFaithful(s: System, step: Step, j: nat)
    requires Conserved(s) && step.Complete? && Shaped(Do(s, step))
    ensures Faithful(Do(s, step), j)
  {
    FirstWithSpec(s.slots, step.id);
    var i := FirstWith(s.slots, step.id);
    assert Faithful(s, j);
    if i < |s.slots| && i != j && j < |s.slots| && s.slots[j].active {
      SerialsApart(s, Min(i, j), Max(i, j));
    }
  }

  lemma {:induction false} CompleteConserves(s: System, step: Step)
    requires Conserved(s) && step.Complete?
    ensures Conserved(Do(s, step))
  {
    var t := Do(s, step);
    assert UniqueIds(t.slots) by {
      CompleteRefines(s.slots, step.id, step.final);
    }
    CompletePlaces(s, step, 0);
    forall serial: nat ensures PlacedOnce(t, serial) {
      CompletePlaces(s, step, serial);
    }
    forall j: nat ensures Faithful(t, j) {
      CompleteFaithful(s, step, j);
    }
  }

  lemma {:induction false} ExpirePlaces(s: System, step: Step, serial: nat)
    requires Conserved(s) && step.Expire?
    ensures Shaped(Do(s, step)) && PlacedOnce(Do(s, step), serial) && TotalsAgree(Do(s, step))
  {
    ActiveWithExpire(s.slots, s.serials, step.now, serial);
    assert PlacedOnce(s, serial);
    assert Do(s, step).batches[..|s.batches|] == s.batches;
  }

  lemma {:induction false} ExpireConserves(s: System, step: Step)
    requires Conserved(s) && step.Expire?
    ensures Conserved(Do(s, step))
  {
    var t := Do(s, step);
    assert UniqueIds(t.slots) by { ExpireRefines(s.slots, step.now); }
    ExpirePlaces(s, step, 0);
    forall serial: nat ensures PlacedOnce(t, serial) {
      ExpirePlaces(s, step, serial);
    }
    forall j: nat ensures Faithful(t, j) {
      assert Faithful(s, j);
    }
  }

  lemma {:induction false} DeliverPlaces(s: System, step: Step, serial: nat)
    requires Conserved(s) && step.Deliver?
    ensures Shaped(Do(s, step)) && PlacedOnce(Do(s, step), serial) && TotalsAgree(Do(s, step))
  {
    assert PlacedOnce(s, serial);
    if step.batch < |s.batches| && s.batches[step.batch] != [] {
      var batch := s.batches[step.batch];
      UndeliveredUpdate(s.batches, step.batch, batch[1..], serial);
      OccurrencesTail(batch, serial);
    }
  }

  lemma {:induction false} DeliverConserves(s: System, step: Step)
    requires Conserved(s) && step.Deliver?
    ensures Conserved(Do(s, step))
  {
    var t := Do(s, step);
    DeliverPlaces(s, step, 0);
    forall serial: nat ensures PlacedOnce(t, serial) {
      DeliverPlaces(s, step, serial);
    }
    forall j: nat ensures Faithful(t, j) {
      assert Faithful(s, j);
    }
  }

  lemma {:induction false} StepConserves(s: System, step: Step)
    requires Conserved(s)
    ensures Conserved(Do(s, step))
  {
    match step {
      case Add(_, _, _, _) => AddConserves(s, step);
      case Complete(_, _) => CompleteConserves(s, step);
      case Expire(_) => ExpireConserves(s, step);
      case Deliver(_) => DeliverConserves(s, step);
    }
  }

  // ----- runs

  /** `t` is the state after the steps, taken one after the other. */
  ghost predicate Reaches(s: System, steps: seq<Step>, t: System)
    decreases |steps|
  {
    if steps == [] then s == t
    else Shaped(s) && Reaches(Do(s, steps[0]), steps[1..], t)
  }

  lemma {:induction false} RunConserves(s: System, steps: seq<Step>, t: System)
    requires Conserved(s) && Reaches(s, steps, t)
    ensures Conserved(t) && |t.slots| == |s.slots|
    decreases |steps|
  {
    if steps != [] {
      StepConserves(s, steps[0]);
      RunConserves(Do(s, steps[0]), steps[1..], t);
    }
  }

  lemma {:induction false} NothingActive(slots: seq<PendingRequest>, serials: seq<nat>, serial: nat)
    requires |serials| == |slots| && forall i :: 0 <= i < |slots| ==> !slots[i].active
    ensures ActiveWith(slots, serials, serial) == 0 && CountActive(slots) == 0
  {
    if slots != [] {
      NothingActive(slots[..|slots|-1], serials[..|slots|-1], serial);
    }
  }

  lemma {:induction false} InitialConserved(capacity: nat)
    ensures Conserved(Initial(capacity))
  {
    forall serial: nat ensures PlacedOnce(Initial(capacity), serial) {
      NothingActive(Initial(capacity).slots, Initial(capacity).serials, serial);
    }
    NothingActive(Initial(capacity).slots, Initial(capacity).serials, 0);
  }

  /** In every reachable state the accepted requests are exactly the active, the completed, the removed
      but undelivered and the delivered ones, and each is in one of these places, once.  So none is settled
      twice, none is both completed and delivered as expired, and no callback sees one twice; once every
      batch is delivered, every removed request has reached the callback. */
  lemma {:induction false} EveryRequestSettledOnce(capacity: nat, steps: seq<Step>, t: System)
    requires Reaches(Initial(capacity), steps, t)
    ensures Shaped(t) && UniqueIds(t.slots) && |t.slots| == capacity && CountActive(t.slots) <= capacity
    ensures |t.requests| == CountActive(t.slots) + |t.completed| + UndeliveredTotal(t.batches) + |t.delivered|
    ensures forall serial: nat ::
              ActiveWith(t.slots, t.serials, serial) + Occurrences(t.completed, serial)
              + Undelivered(t.batches, serial) + Occurrences(t.delivered, serial)
              == if serial < |t.requests| then 1 else 0
  {
    InitialConserved(capacity);
    RunConserves(Initial(capacity), steps, t);
    CountIsSize(t.slots);
    forall serial: nat
      ensures ActiveWith(t.slots, t.serials, serial) + Occurrences(t.completed, serial)
              + Undelivered(t.batches, serial) + Occurrences(t.delivered, serial)
              == if serial < |t.requests| then 1 else 0
    {
      assert PlacedOnce(t, serial);
    }
  }

  /** In every reachable state a slot holds the request as it was accepted, and its counter is the number
      of non-final responses so far, modulo 2^16. */
  lemma {:induction false} CountersAreResponses(capacity: nat, steps: seq<Step>, t: System, i: nat)
    requires Reaches(Initial(capacity), steps, t) && i < |t.slots| && t.slots[i].active
    ensures Shaped(t)
    ensures t.slots[i].responseCount == t.responses[t.serials[i]] % COUNTER
    ensures t.slots[i] == t.requests[t.serials[i]].(responseCount := t.slots[i].responseCount)
  {
    InitialConserved(capacity);
    RunConserves(Initial(capacity), steps, t);
    assert Faithful(t, i);
  }

  lemma {:induction false} DueSource(slots: seq<PendingRequest>, serials: seq<nat>, now: nat, k: nat) returns (i: nat)
    requires |serials| == |slots|
    ensures |DueSerials(slots, serials, now)| == |Expired(slots, now)|
    ensures k < |Expired(slots, now)| ==>
              i < |slots| && Due(slots[i], now)
              && DueSerials(slots, serials, now)[k] == serials[i] && Expired(slots, now)[k] == slots[i]
  {
    if slots == [] {
      i := 0;
    } else {
      var n := |slots| - 1;
      i := DueSource(slots[..n], serials[..n], now, k);
      if |Expired(slots[..n], now)| <= k {
        i := n;
      }
    }
  }

  /** What an Expire hands over for delivery are the due requests themselves, as accepted, in table order. */
  lemma {:induction false} BatchIsDue(s: System, now: nat, k: nat)
    requires Conserved(s) && k < |DueSerials(s.slots, s.serials, now)|
    ensures |DueSerials(s.slots, s.serials, now)| == |Expired(s.slots, now)|
    ensures var serial := DueSerials(s.slots, s.serials, now)[k];
            && serial < |s.requests| && s.requests[serial].deadline <= now
            && Expired(s.slots, now)[k] == s.requests[serial].(responseCount := s.responses[serial] % COUNTER)
  {
    var i := DueSource(s.slots, s.serials, now, k);
    assert Faithful(s, i);
  }

  function Deliveries(batch: nat, n: nat): seq<Step> {
    if n == 0 then [] else [Deliver(batch)] + Deliveries(batch, n - 1)
  }

  /** Delivering a batch to its end passes it to the callback in order. */
  lemma {:induction false} DeliveredInOrder(s: System, batch: nat)
    requires Conserved(s) && batch < |s.batches|
    ensures Reaches(s, Deliveries(batch, |s.batches[batch]|),
                    s.(delivered := s.delivered + s.batches[batch], batches := s.batches[batch := []]))
    decreases |s.batches[batch]|
  {
    var entries := s.batches[batch];
    if entries == [] {
      assert s.delivered + entries == s.delivered && s.batches[batch := []] == s.batches;
    } else {
      var next := Do(s, Deliver(batch));
      var steps := Deliveries(batch, |entries|);
      assert steps[0] == Deliver(batch) && steps[1..] == Deliveries(batch, |entries| - 1);
      StepConserves(s, Deliver(batch));
      DeliveredInOrder(next, batch);
      assert (s.delivered + [entries[0]]) + entries[1..] == s.delivered + entries;
      assert next.batches[batch := []] == s.batches[batch := []];
    }
  }

  // ----- requests that expect a single response

  ghost predicate SinglesUncounted(s: System) {
    && |s.responses| == |s.requests|
    && forall k :: 0 <= k < |s.requests| && s.requests[k].mode == Single ==> s.responses[k] == 0
  }

  lemma {:induction false} StepUncounted(s: System, step: Step)
    requires Conserved(s) && SinglesUncounted(s)
    ensures SinglesUncounted(Do(s, step))
  {
    if step.Complete? {
      FirstWithSpec(s.slots, step.id);
      assert Faithful(s, FirstWith(s.slots, step.id));
    }
  }

  lemma {:induction false} RunUncounted(s: System, steps: seq<Step>, t: System)
    requires Conserved(s) && SinglesUncounted(s) && Reaches(s, steps, t)
    ensures SinglesUncounted(t)
    decreases |steps|
  {
    if steps != [] {
      StepConserves(s, steps[0]);
      StepUncounted(s, steps[0]);
      RunUncounted(Do(s, steps[0]), steps[1..], t);
    }
  }

  /** Over every interleaving a request that expects a single response never lives through one. */
  lemma {:induction false} SingleIsSettledByFirst(capacity: nat, steps: seq<Step>, t: System, serial: nat)
    requires Reaches(Initial(capacity), steps, t)
    ensures |t.responses| == |t.requests|
    ensures serial < |t.requests| && t.requests[serial].mode == Single ==> t.responses[serial] == 0
  {
    InitialConserved(capacity);
    RunUncounted(Initial(capacity), steps, t);
  }
}
