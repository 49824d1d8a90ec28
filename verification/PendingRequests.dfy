/**
 The pool of pending requests: a table of slots, filled, counted up and cleared in place under a lock.
 Every operation is specified by a function on the sequence of slots, and those functions refine a
 finite map from request id to request, bounded by the capacity.
 */
module PendingRequests {

  /** The bytes in use; at most 32 of them in the original. */
  datatype CommandOriginAddress = CommandOriginAddress(bytes: seq<int>)
  datatype ResponseMode = Single | Multiple
  datatype PendingStatus = Success | DuplicateRequestId | CapacityExhausted | NotFound

  datatype PendingRequest = PendingRequest(
    active: bool,
    requestId: nat,
    destination: CommandOriginAddress,
    deadline: nat,
    mode: ResponseMode,
    responseCount: nat)

  const NO_ADDRESS := CommandOriginAddress([])
  const EMPTY := PendingRequest(false, 0, NO_ADDRESS, 0, Single, 0)

  /** `ResponseCount` is a 16-bit counter. */
  const COUNTER := 0x1_0000

  // ----- the operations on the slots

  predicate Is(slot: PendingRequest, id: nat) {
    slot.active && slot.requestId == id
  }

  predicate Due(slot: PendingRequest, now: nat) {
    slot.active && slot.deadline <= now
  }

  /** Index of the first slot in use for `id`; the number of slots if there is none. */
  function FirstWith(slots: seq<PendingRequest>, id: nat): (i: nat)
    ensures i <= |slots|
  {
    if slots == [] || Is(slots[0], id) then 0 else 1 + FirstWith(slots[1..], id)
  }

  function FirstFree(slots: seq<PendingRequest>): (i: nat)
    ensures i <= |slots|
  {
    if slots == [] || !slots[0].active then 0 else 1 + FirstFree(slots[1..])
  }

  function Fresh(id: nat, destination: CommandOriginAddress, deadline: nat, mode: ResponseMode): PendingRequest {
    PendingRequest(true, id, destination, deadline, mode, 0)
  }

  function AddTo(slots: seq<PendingRequest>, request: PendingRequest): (PendingStatus, seq<PendingRequest>) {
    if FirstWith(slots, request.requestId) < |slots| then (DuplicateRequestId, slots)
    else if FirstFree(slots) == |slots| then (CapacityExhausted, slots)
    else (Success, slots[FirstFree(slots) := request])
  }

  function Counted(slot: PendingRequest): PendingRequest {
    slot.(responseCount := (slot.responseCount + 1) % COUNTER)
  }

  predicate Releases(slot: PendingRequest, final: bool) {
    slot.mode == Single || final
  }

  function CompleteIn(slots: seq<PendingRequest>, id: nat, final: bool): (PendingStatus, seq<PendingRequest>) {
    var i := FirstWith(slots, id);
    if i == |slots| then (NotFound, slots)
    else (Success, slots[i := if Releases(slots[i], final) then EMPTY else Counted(slots[i])])
  }

  function Expired(slots: seq<PendingRequest>, now: nat): seq<PendingRequest> {
    if slots == [] then []
    else
      var front := Expired(slots[..|slots|-1], now);
      if Due(slots[|slots|-1], now) then front + [slots[|slots|-1]] else front
  }

  function Unexpired(slots: seq<PendingRequest>, now: nat): seq<PendingRequest> {
    seq(|slots|, i requires 0 <= i < |slots| => if Due(slots[i], now) then EMPTY else slots[i])
  }

  function CountActive(slots: seq<PendingRequest>): nat {
    if slots == [] then 0
    else CountActive(slots[..|slots|-1]) + if slots[|slots|-1].active then 1 else 0
  }

  // ----- searches

  lemma {:induction false} FirstWithSpec(slots: seq<PendingRequest>, id: nat)
    ensures var i := FirstWith(slots, id);
            && (i < |slots| ==> Is(slots[i], id))
            && forall j :: 0 <= j < i ==> !Is(slots[j], id)
  {
    if slots != [] && !Is(slots[0], id) {
      FirstWithSpec(slots[1..], id);
      forall j | 0 <= j < FirstWith(slots, id) ensures !Is(slots[j], id) {
        if j != 0 {
          assert slots[1..][j-1] == slots[j];
        }
      }
    }
  }

  lemma {:induction false} FirstWithIs(slots: seq<PendingRequest>, id: nat, i: nat)
    requires i <= |slots| && (i < |slots| ==> Is(slots[i], id))
    requires forall j :: 0 <= j < i ==> !Is(slots[j], id)
    ensures FirstWith(slots, id) == i
  {
    FirstWithSpec(slots, id);
  }

  lemma {:induction false} FirstFreeSpec(slots: seq<PendingRequest>)
    ensures var i := FirstFree(slots);
            && (i < |slots| ==> !slots[i].active)
            && forall j :: 0 <= j < i ==> slots[j].active
  {
    if slots != [] && slots[0].active {
      FirstFreeSpec(slots[1..]);
      forall j | 0 <= j < FirstFree(slots) ensures slots[j].active {
        if j != 0 {
          assert slots[1..][j-1] == slots[j];
        }
      }
    }
  }

  lemma {:induction false} FirstFreeIs(slots: seq<PendingRequest>, i: nat)
    requires i <= |slots| && (i < |slots| ==> !slots[i].active)
    requires forall j :: 0 <= j < i ==> slots[j].active
    ensures FirstFree(slots) == i
  {
    FirstFreeSpec(slots);
  }

  // ----- the pool itself

  lemma {:induction false} NoneDue(slots: seq<PendingRequest>, now: nat)
    requires forall j :: 0 <= j < |slots| ==> !Due(slots[j], now)
    ensures Expired(slots, now) == []
  {
    if slots != [] {
      NoneDue(slots[..|slots|-1], now);
    }
  }

  lemma {:induction false} NoneActive(slots: seq<PendingRequest>)
    requires forall j :: 0 <= j < |slots| ==> !slots[j].active
    ensures CountActive(slots) == 0
  {
    if slots != [] {
      NoneActive(slots[..|slots|-1]);
    }
  }

  lemma {:induction false} ExpiredMembers(slots: seq<PendingRequest>, now: nat)
    ensures forall slot :: slot in Expired(slots, now) <==> slot in slots && Due(slot, now)
  {
    if slots != [] {
      var front, last := slots[..|slots|-1], slots[|slots|-1];
      ExpiredMembers(front, now);
      assert slots == front + [last];
    }
  }

  lemma {:induction false} NothingExpired(slots: seq<PendingRequest>, now: nat)
    requires Expired(slots, now) == []
    ensures Unexpired(slots, now) == slots
  {
    ExpiredMembers(slots, now);
    assert forall j :: 0 <= j < |slots| ==> slots[j] in slots;
  }

  class PendingRequestPool {
    const capacity: nat
    var entries: array<PendingRequest>

    ghost predicate Valid()
      reads this
    {
      entries.Length == 0 || entries.Length == capacity
    }

    /** The slots, also before the table has been allocated. */
    ghost function Slots(): (slots: seq<PendingRequest>)
      requires Valid()
      reads this, entries
      ensures |slots| == capacity
    {
      if entries.Length == capacity then entries[..] else seq(capacity, _ => EMPTY)
    }

    constructor (capacity: nat)
      ensures Valid() && fresh(entries) && this.capacity == capacity
      ensures Slots() == seq(capacity, _ => EMPTY)
    {
      this.capacity := capacity;
      entries := new PendingRequest[0];
      new;
      if capacity == 0 {
        assert entries[..] == seq(capacity, _ => EMPTY);
      }
    }

    method EnsureEntries()
      requires Valid()
      modifies this
      ensures Valid() && entries.Length == capacity && Slots() == old(Slots())
      ensures entries == old(entries) || fresh(entries)
    {
      if entries.Length == 0 && capacity != 0 {
        entries := new PendingRequest[capacity](_ => EMPTY);
        assert entries[..] == seq(capacity, _ => EMPTY);
      }
    }

    method Add(id: nat, destination: CommandOriginAddress, deadline: nat, mode: ResponseMode)
      returns (status: PendingStatus)
      requires Valid()
      modifies this, entries
      ensures Valid() && (entries == old(entries) || fresh(entries))
      ensures (status, Slots()) == AddTo(old(Slots()), Fresh(id, destination, deadline, mode))
    {
      ghost var before := Slots();
      EnsureEntries();
      var freeEntry := entries.Length;
      for i := 0 to entries.Length
        invariant entries[..] == before
        invariant forall j :: 0 <= j < i ==> !Is(before[j], id)
        invariant 0 <= freeEntry < i || freeEntry == entries.Length
        invariant forall j :: 0 <= j < i && j < freeEntry ==> before[j].active
        invariant freeEntry < i ==> !before[freeEntry].active
      {
        var entry := entries[i];
        assert entry == before[i];
        if entry.active && entry.requestId == id {
          FirstWithIs(before, id, i);
          return DuplicateRequestId;
        }
        if !entry.active && freeEntry == entries.Length {
          freeEntry := i;
        }
      }
      FirstWithIs(before, id, |before|);
      FirstFreeIs(before, freeEntry);
      if freeEntry == entries.Length {
        return CapacityExhausted;
      }
      entries[freeEntry] := EMPTY;
      entries[freeEntry] := entries[freeEntry].(
        active := true, requestId := id, destination := destination, deadline := deadline, mode := mode);
      status := Success;
      assert entries[..] == before[freeEntry := Fresh(id, destination, deadline, mode)];
    }

    method Complete(id: nat, finalResponse: bool) returns (status: PendingStatus)
      requires Valid()
      modifies entries
      ensures Valid() && (status, Slots()) == CompleteIn(old(Slots()), id, finalResponse)
    {
      ghost var before := Slots();
      for i := 0 to entries.Length
        invariant Slots() == before && (entries.Length != 0 ==> entries[..] == before)
        invariant forall j :: 0 <= j < i ==> !Is(before[j], id)
      {
        assert entries[i] == before[i];
        if entries[i].active && entries[i].requestId == id {
          FirstWithIs(before, id, i);
          entries[i] := entries[i].(responseCount := (entries[i].responseCount + 1) % COUNTER);
          if entries[i].mode == Single || finalResponse {
            entries[i] := EMPTY;
          }
          assert entries[..] == before[i := if Releases(before[i], finalResponse) then EMPTY else Counted(before[i])];
          return Success;
        }
      }
      assert entries.Length == 0 ==> forall j :: 0 <= j < |before| ==> !before[j].active;
      FirstWithIs(before, id, |before|);
      status := NotFound;
    }

    /** The part of `Expire` under the lock: count the due entries, then move them out.  The callbacks
        run on the returned snapshot after the lock is released. */
    method Expire(now: nat) returns (expired: seq<PendingRequest>, expiredCount: nat)
      requires Valid()
      modifies entries
      ensures Valid() && Slots() == Unexpired(old(Slots()), now)
      ensures expired == Expired(old(Slots()), now) && expiredCount == |expired|
    {
      ghost var before := Slots();
      expiredCount := 0;
      for i := 0 to entries.Length
        invariant Slots() == before && (entries.Length != 0 ==> entries[..] == before)
        invariant expiredCount == |Expired(before[..i], now)|
      {
        assert before[..i+1][..i] == before[..i] && entries[i] == before[i];
        if entries[i].active && entries[i].deadline <= now {
          expiredCount := expiredCount + 1;
        }
      }
      expired := [];
      if entries.Length == 0 {
        NoneDue(before, now);
      }
      assert before[..|before|] == before;
      if expiredCount == 0 {
        NothingExpired(before, now);
        return;
      }
      for i := 0 to entries.Length
        invariant entries.Length == |before|
        invariant expired == Expired(before[..i], now)
        invariant forall j :: 0 <= j < i ==> entries[j] == if Due(before[j], now) then EMPTY else before[j]
        invariant forall j :: i <= j < entries.Length ==> entries[j] == before[j]
      {
        assert before[..i+1][..i] == before[..i];
        if !(!entries[i].active || entries[i].deadline > now) {
          expired := expired + [entries[i]];
          entries[i] := EMPTY;
        }
      }
      assert entries[..] == Unexpired(before, now);
    }

    method ActiveCount() returns (count: nat)
      requires Valid()
      ensures count == CountActive(Slots())
    {
      count := 0;
      ghost var slots := Slots();
      for i := 0 to entries.Length
        invariant count == CountActive(slots[..i])
      {
        assert slots[..i+1][..i] == slots[..i] && entries[i] == slots[i];
        if entries[i].active {
          count := count + 1;
        }
      }
      if entries.Length == 0 {
        NoneActive(slots);
      }
      assert slots[..|slots|] == slots;
    }
  }
}
