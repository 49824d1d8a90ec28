/** The slot table refines a capacity-bounded map from request id to request. */
module PendingMap {
  import opened PendingRequests

  ghost predicate UniqueIds(slots: seq<PendingRequest>) {
    forall i, j :: 0 <= i < j < |slots| && slots[i].active && slots[j].active ==>
      slots[i].requestId != slots[j].requestId
  }

  ghost function ActiveIds(slots: seq<PendingRequest>): set<nat> {
    set i | 0 <= i < |slots| && slots[i].active :: slots[i].requestId
  }

  lemma {:induction false} FirstWithSome(slots: seq<PendingRequest>, id: nat)
    ensures id in ActiveIds(slots) <==> FirstWith(slots, id) < |slots|
    ensures id in ActiveIds(slots) <==> exists i :: 0 <= i < |slots| && Is(slots[i], id)
  {
    FirstWithSpec(slots, id);
    if FirstWith(slots, id) < |slots| {
      assert slots[FirstWith(slots, id)].requestId in ActiveIds(slots);
    }
    if i :| 0 <= i < |slots| && Is(slots[i], id) {
      assert slots[i].requestId in ActiveIds(slots);
    }
    if id in ActiveIds(slots) {
      var i :| 0 <= i < |slots| && slots[i].active && slots[i].requestId == id;
      assert Is(slots[i], id);
    }
  }

  /** The map a table stands for; which slot holds a request is forgotten. */
  ghost function Pending(slots: seq<PendingRequest>): map<nat, PendingRequest>
  {
    map id | id in ActiveIds(slots) :: FirstWithSome(slots, id); slots[FirstWith(slots, id)]
  }

  // ----- the same operations on the map

  ghost function AddToMap(capacity: nat, pending: map<nat, PendingRequest>, request: PendingRequest)
    : (PendingStatus, map<nat, PendingRequest>)
  {
    if request.requestId in pending then (DuplicateRequestId, pending)
    else if capacity <= |pending| then (CapacityExhausted, pending)
    else (Success, pending[request.requestId := request])
  }

  ghost function CompleteInMap(pending: map<nat, PendingRequest>, id: nat, final: bool)
    : (PendingStatus, map<nat, PendingRequest>)
  {
    if id !in pending then (NotFound, pending)
    else if Releases(pending[id], final) then (Success, pending - {id})
    else (Success, pending[id := Counted(pending[id])])
  }

  ghost function DueIds(pending: map<nat, PendingRequest>, now: nat): set<nat> {
    set id | id in pending && Due(pending[id], now)
  }

  // ----- refinement

  /** What the map says of an id, in terms of the slots. */
  lemma {:induction false} PendingLookup(slots: seq<PendingRequest>, id: nat)
    requires UniqueIds(slots)
    ensures id in Pending(slots) <==> FirstWith(slots, id) < |slots|
    ensures id in Pending(slots) <==> exists i :: 0 <= i < |slots| && Is(slots[i], id)
    ensures forall i :: 0 <= i < |slots| && Is(slots[i], id) ==>
              i == FirstWith(slots, id) && id in Pending(slots) && Pending(slots)[id] == slots[i]
  {
    FirstWithSpec(slots, id);
    FirstWithSome(slots, id);
  }

  lemma {:induction false} ActiveIdsSnoc(front: seq<PendingRequest>, last: PendingRequest)
    ensures ActiveIds(front + [last]) == ActiveIds(front) + if last.active then {last.requestId} else {}
  {
    var slots := front + [last];
    forall id ensures id in ActiveIds(slots) <==> id in ActiveIds(front) || (last.active && id == last.requestId) {
      if id in ActiveIds(front) {
        var i :| 0 <= i < |front| && front[i].active && front[i].requestId == id;
        assert slots[i] == front[i];
      }
      assert slots[|front|] == last;
    }
  }

  lemma {:induction false} CountIds(slots: seq<PendingRequest>)
    requires UniqueIds(slots)
    ensures |ActiveIds(slots)| == CountActive(slots) <= |slots|
  {
    if slots != [] {
      var front, last := slots[..|slots|-1], slots[|slots|-1];
      assert slots == front + [last];
      CountIds(front);
      ActiveIdsSnoc(front, last);
      assert last.active ==> last.requestId !in ActiveIds(front);
    }
  }

  lemma {:induction false} CountIsSize(slots: seq<PendingRequest>)
    requires UniqueIds(slots)
    ensures |Pending(slots)| == CountActive(slots) <= |slots|
  {
    CountIds(slots);
    assert Pending(slots).Keys == ActiveIds(slots);
  }

  lemma {:induction false} CountActiveBound(slots: seq<PendingRequest>)
    ensures CountActive(slots) <= |slots|
  {
    if slots != [] { CountActiveBound(slots[..|slots|-1]); }
  }

  lemma {:induction false} CountActiveGap(slots: seq<PendingRequest>, i: nat)
    requires i < |slots| && !slots[i].active
    ensures CountActive(slots) < |slots|
  {
    CountActiveBound(slots[..|slots|-1]);
    if i < |slots| - 1 { CountActiveGap(slots[..|slots|-1], i); }
  }

  lemma {:induction false} CountActiveFull(slots: seq<PendingRequest>)
    requires forall i :: 0 <= i < |slots| ==> slots[i].active
    ensures CountActive(slots) == |slots|
  {
    if slots != [] { CountActiveFull(slots[..|slots|-1]); }
  }

  lemma {:induction false} FullIffNoFree(slots: seq<PendingRequest>)
    ensures CountActive(slots) == |slots| <==> FirstFree(slots) == |slots|
    ensures CountActive(slots) <= |slots|
  {
    FirstFreeSpec(slots);
    CountActiveBound(slots);
    if FirstFree(slots) < |slots| {
      CountActiveGap(slots, FirstFree(slots));
    } else {
      CountActiveFull(slots);
    }
  }

  /** A map that says the right thing of every id is the map of the table. */
  lemma {:induction false} PendingIs(slots: seq<PendingRequest>, pending: map<nat, PendingRequest>)
    requires UniqueIds(slots)
    requires forall i :: 0 <= i < |slots| && slots[i].active ==>
               slots[i].requestId in pending && pending[slots[i].requestId] == slots[i]
    requires forall id :: id in pending ==> exists i :: 0 <= i < |slots| && Is(slots[i], id)
    ensures Pending(slots) == pending
  {
    forall id
      ensures id in Pending(slots) <==> id in pending
      ensures id in pending ==> Pending(slots)[id] == pending[id]
    {
      PendingLookup(slots, id);
    }
  }

  lemma {:induction false} Lookups(slots: seq<PendingRequest>)
    requires UniqueIds(slots)
    ensures forall i :: 0 <= i < |slots| && slots[i].active ==>
              slots[i].requestId in Pending(slots) && Pending(slots)[slots[i].requestId] == slots[i]
    ensures forall id :: id in Pending(slots) ==> exists i :: 0 <= i < |slots| && Is(slots[i], id)
  {
    forall i | 0 <= i < |slots| && slots[i].active
      ensures slots[i].requestId in Pending(slots) && Pending(slots)[slots[i].requestId] == slots[i]
    {
      PendingLookup(slots, slots[i].requestId);
      assert Is(slots[i], slots[i].requestId);
    }
    forall id | id in Pending(slots) ensures exists i :: 0 <= i < |slots| && Is(slots[i], id) {
      PendingLookup(slots, id);
    }
  }

  /** Filling a free slot with a request of a new id adds it to the map. */
  lemma {:induction false} FilledSlot(slots: seq<PendingRequest>, free: nat, request: PendingRequest)
    requires UniqueIds(slots) && free < |slots| && !slots[free].active && request.active
    requires forall i :: 0 <= i < |slots| ==> !Is(slots[i], request.requestId)
    ensures UniqueIds(slots[free := request])
    ensures Pending(slots[free := request]) == Pending(slots)[request.requestId := request]
  {
    var id, slots' := request.requestId, slots[free := request];
    var pending := Pending(slots)[id := request];
    forall i | 0 <= i < |slots| && slots[i].active ensures slots[i].requestId != id {
      assert !Is(slots[i], id);
    }
    Lookups(slots);
    forall key | key in pending ensures exists i :: 0 <= i < |slots'| && Is(slots'[i], key) {
      if key == id {
        assert Is(slots'[free], key);
      } else {
        var i :| 0 <= i < |slots| && Is(slots[i], key);
        assert Is(slots'[i], key);
      }
    }
    PendingIs(slots', pending);
  }

  lemma {:induction false} AddRefines(slots: seq<PendingRequest>, request: PendingRequest)
    requires UniqueIds(slots) && request.active
    ensures var (status, slots') := AddTo(slots, request);
            && |slots'| == |slots| && UniqueIds(slots')
            && (status, Pending(slots')) == AddToMap(|slots|, Pending(slots), request)
  {
    PendingLookup(slots, request.requestId);
    CountIsSize(slots);
    FullIffNoFree(slots);
    FirstFreeSpec(slots);
    FirstWithSpec(slots, request.requestId);
    if AddTo(slots, request).0 == Success {
      FilledSlot(slots, FirstFree(slots), request);
    }
  }

  lemma {:induction false} CompleteRefines(slots: seq<PendingRequest>, id: nat, final: bool)
    requires UniqueIds(slots)
    ensures var (status, slots') := CompleteIn(slots, id, final);
            && |slots'| == |slots| && UniqueIds(slots')
            && (status, Pending(slots')) == CompleteInMap(Pending(slots), id, final)
  {
    var (status, slots') := CompleteIn(slots, id, final);
    PendingLookup(slots, id);
    FirstWithSpec(slots, id);
    if status == Success {
      var at := FirstWith(slots, id);
      var pending := CompleteInMap(Pending(slots), id, final).1;
      assert slots[at] == Pending(slots)[id];
      Lookups(slots);
      forall key | key in pending ensures exists i :: 0 <= i < |slots'| && Is(slots'[i], key) {
        if key == id {
          assert Is(slots'[at], key);
        } else {
          var i :| 0 <= i < |slots| && Is(slots[i], key);
          assert i != at && Is(slots'[i], key);
        }
      }
      PendingIs(slots', pending);
    }
  }

  ghost function IdsOf(entries: seq<PendingRequest>): set<nat> {
    set slot | slot in entries :: slot.requestId
  }

  lemma {:induction false} DueAreExpired(slots: seq<PendingRequest>, now: nat)
    requires UniqueIds(slots)
    ensures DueIds(Pending(slots), now) == IdsOf(Expired(slots, now))
  {
    ExpiredMembers(slots, now);
    Lookups(slots);
    forall id ensures id in DueIds(Pending(slots), now) <==> id in IdsOf(Expired(slots, now)) {
      if id in DueIds(Pending(slots), now) {
        var i :| 0 <= i < |slots| && Is(slots[i], id);
        assert slots[i] in slots && slots[i] in Expired(slots, now);
      }
    }
  }

  lemma {:induction false} ExpiredDistinct(slots: seq<PendingRequest>, now: nat)
    requires UniqueIds(slots)
    ensures |IdsOf(Expired(slots, now))| == |Expired(slots, now)|
  {
    if slots != [] {
      var front, last := slots[..|slots|-1], slots[|slots|-1];
      assert UniqueIds(front);
      ExpiredDistinct(front, now);
      if Due(last, now) {
        ExpiredMembers(front, now);
        assert last.requestId !in IdsOf(Expired(front, now));
        assert IdsOf(Expired(slots, now)) == IdsOf(Expired(front, now)) + {last.requestId};
      }
    }
  }

  /** Expiry removes exactly the due requests, leaves the others where they are, and hands out each
      removed one exactly once. */
  lemma {:induction false} ExpireRefines(slots: seq<PendingRequest>, now: nat)
    requires UniqueIds(slots)
    ensures |Unexpired(slots, now)| == |slots| && UniqueIds(Unexpired(slots, now))
    ensures Pending(Unexpired(slots, now)) == Pending(slots) - DueIds(Pending(slots), now)
    ensures forall slot: PendingRequest :: slot in Expired(slots, now) <==>
              slot.requestId in DueIds(Pending(slots), now) && slot == Pending(slots)[slot.requestId]
    ensures |Expired(slots, now)| == |DueIds(Pending(slots), now)|
  {
    var slots' := Unexpired(slots, now);
    var pending := Pending(slots) - DueIds(Pending(slots), now);
    Lookups(slots);
    forall key | key in pending ensures exists i :: 0 <= i < |slots'| && Is(slots'[i], key) {
      var i :| 0 <= i < |slots| && Is(slots[i], key);
      assert Is(slots'[i], key);
    }
    PendingIs(slots', pending);
    ExpiredMembers(slots, now);
    forall slot: PendingRequest |
      slot.requestId in DueIds(Pending(slots), now) && slot == Pending(slots)[slot.requestId]
      ensures slot in slots
    {
      var i :| 0 <= i < |slots| && Is(slots[i], slot.requestId);
      assert slots[i] in slots;
    }
    DueAreExpired(slots, now);
    ExpiredDistinct(slots, now);
  }

  /** Expiring twice with nothing in between is expiring once at the later time: the same table remains
      and the same requests are removed. */
  lemma {:induction false} ExpireTwice(slots: seq<PendingRequest>, t1: nat, t2: nat)
    requires t1 <= t2
    ensures Unexpired(Unexpired(slots, t1), t2) == Unexpired(slots, t2)
    ensures multiset(Expired(slots, t1)) + multiset(Expired(Unexpired(slots, t1), t2)) == multiset(Expired(slots, t2))
  {
    if slots == [] {
    } else {
      var front, last := slots[..|slots|-1], slots[|slots|-1];
      ExpireTwice(front, t1, t2);
      assert Unexpired(slots, t1)[..|slots|-1] == Unexpired(front, t1);
    }
  }

  /** An accepted request is pending under its id with the destination, deadline and mode given, in use and
      without responses; the others are as they were. */
  lemma {:induction false} AddedAsGiven(slots: seq<PendingRequest>, id: nat, destination: CommandOriginAddress,
                                        deadline: nat, mode: ResponseMode)
    requires UniqueIds(slots)
    ensures var (status, slots') := AddTo(slots, Fresh(id, destination, deadline, mode));
            && UniqueIds(slots')
            && (status == Success ==>
                  Pending(slots') == Pending(slots)[id := PendingRequest(true, id, destination, deadline, mode, 0)])
            && (status != Success ==> slots' == slots)
  {
    AddRefines(slots, Fresh(id, destination, deadline, mode));
  }

  /** Completing, by the mode the request was added with: a first response settles a single-response request,
      whatever it says of itself; a multiple-response request is settled by the response that says it is the
      last, and otherwise only counts it, in 16 bits. */
  lemma {:induction false} CompletedByMode(slots: seq<PendingRequest>, id: nat, final: bool)
    requires UniqueIds(slots) && id in Pending(slots)
    ensures CompleteIn(slots, id, final).0 == Success && UniqueIds(CompleteIn(slots, id, final).1)
    ensures var request := Pending(slots)[id];
            Pending(CompleteIn(slots, id, final).1) ==
            if request.mode == Multiple && !final then
              Pending(slots)[id := request.(responseCount := (request.responseCount + 1) % 0x1_0000)]
            else Pending(slots) - {id}
  {
    CompleteRefines(slots, id, final);
  }

  lemma {:induction false} UnknownIsNotFound(slots: seq<PendingRequest>, id: nat, final: bool)
    requires UniqueIds(slots)
    ensures id !in Pending(slots) <==> CompleteIn(slots, id, final) == (NotFound, slots)
  {
    PendingLookup(slots, id);
  }

  lemma {:induction false} ActiveWhenPending(slots: seq<PendingRequest>, id: nat)
    requires UniqueIds(slots)
    ensures id in Pending(slots) ==> Pending(slots)[id].active && Pending(slots)[id].requestId == id
  {
    FirstWithSpec(slots, id);
    PendingLookup(slots, id);
  }

  /** A deadline that has just been reached is due: what stays pending is what has its deadline still ahead. */
  lemma {:induction false} ExpiryIsPrompt(slots: seq<PendingRequest>, now: nat, id: nat)
    requires UniqueIds(slots)
    ensures UniqueIds(Unexpired(slots, now))
    ensures id in Pending(Unexpired(slots, now)) <==> id in Pending(slots) && now < Pending(slots)[id].deadline
    ensures (exists slot: PendingRequest :: slot in Expired(slots, now) && slot.requestId == id) <==>
            id in Pending(slots) && Pending(slots)[id].deadline <= now
  {
    ExpireRefines(slots, now);
    ActiveWhenPending(slots, id);
    if id in Pending(slots) && Pending(slots)[id].deadline <= now {
      assert Pending(slots)[id] in Expired(slots, now);
    }
  }

  /** What an operation answers, and what the map becomes, does not depend on which slot holds which
      request: two tables of the same size that stand for the same map cannot be told apart. */
  lemma {:induction false} LayoutIrrelevant(a: seq<PendingRequest>, b: seq<PendingRequest>, request: PendingRequest,
                                            id: nat, final: bool, now: nat)
    requires |a| == |b| && UniqueIds(a) && UniqueIds(b) && Pending(a) == Pending(b) && request.active
    ensures AddTo(a, request).0 == AddTo(b, request).0
    ensures UniqueIds(AddTo(a, request).1) && UniqueIds(AddTo(b, request).1)
    ensures Pending(AddTo(a, request).1) == Pending(AddTo(b, request).1)
    ensures CompleteIn(a, id, final).0 == CompleteIn(b, id, final).0
    ensures UniqueIds(CompleteIn(a, id, final).1) && UniqueIds(CompleteIn(b, id, final).1)
    ensures Pending(CompleteIn(a, id, final).1) == Pending(CompleteIn(b, id, final).1)
    ensures UniqueIds(Unexpired(a, now)) && UniqueIds(Unexpired(b, now))
    ensures Pending(Unexpired(a, now)) == Pending(Unexpired(b, now))
    ensures |Expired(a, now)| == |Expired(b, now)|
    ensures forall slot: PendingRequest :: slot in Expired(a, now) <==> slot in Expired(b, now)
    ensures CountActive(a) == CountActive(b)
  {
    AddRefines(a, request);
    AddRefines(b, request);
    CompleteRefines(a, id, final);
    CompleteRefines(b, id, final);
    ExpireRefines(a, now);
    ExpireRefines(b, now);
    CountIsSize(a);
    CountIsSize(b);
  }
}
