/**
 The registry of weakly owned response routes.  A route may die at any moment, also between two
 observations of one call; once dead it stays dead.  Liveness is an oracle over time, and every
 observation the code makes of a weak reference takes one tick.
 */
module ResponseRoutes {
  import opened Prelude

  /** Route objects are numbered. */
  type Route = nat

  datatype Entry = Entry(id: nat, route: Route)

  /** Route ids are 32-bit. */
  const ID_SPACE: nat := 0x1_0000_0000

  type Liveness = (nat, Route) -> bool

  ghost predicate Fading(alive: Liveness) {
    forall t: nat, u: nat, r: Route :: t <= u && alive(u, r) ==> alive(t, r)
  }

  // ----- resolution

  datatype Scanned = Scanned(kept: seq<Entry>, found: Option<Route>, time: nat)

  /** The loop of `Resolve`: dead entries are erased on the way, the first live entry with the id ends
      the search, and it may still die before it is locked. */
  function Scan(routes: seq<Entry>, id: nat, alive: Liveness, t: nat): Scanned
    decreases |routes|
  {
    if routes == [] then Scanned([], None, t)
    else if !alive(t, routes[0].route) then Scan(routes[1..], id, alive, t + 1)
    else if routes[0].id == id then
      Scanned(routes, if alive(t + 1, routes[0].route) then Some(routes[0].route) else None, t + 2)
    else
      var later := Scan(routes[1..], id, alive, t + 1);
      later.(kept := [routes[0]] + later.kept)
  }

  function IndexOfId(routes: seq<Entry>, id: nat): (i: nat)
    ensures i <= |routes|
    ensures i < |routes| ==> routes[i].id == id
  {
    if routes == [] || routes[0].id == id then 0 else 1 + IndexOfId(routes[1..], id)
  }

  function WithoutId(routes: seq<Entry>, id: nat): seq<Entry> {
    var i := IndexOfId(routes, id);
    if i == |routes| then routes else routes[..i] + routes[i+1..]
  }

  /** Entries already looked at, and kept, come in front. */
  function Behind(front: seq<Entry>, scanned: Scanned): Scanned {
    scanned.(kept := front + scanned.kept)
  }

  lemma {:induction false} BehindNothing(scanned: Scanned)
    ensures Behind([], scanned) == scanned
  {
    assert [] + scanned.kept == scanned.kept;
  }

  /** One turn of the loop. */
  lemma {:induction false} ScanStep(front: seq<Entry>, rest: seq<Entry>, id: nat, alive: Liveness, t: nat)
    requires rest != []
    ensures Behind(front, Scan(rest, id, alive, t)) ==
            if !alive(t, rest[0].route) then Behind(front, Scan(rest[1..], id, alive, t + 1))
            else if rest[0].id == id then
              Scanned(front + rest, if alive(t + 1, rest[0].route) then Some(rest[0].route) else None, t + 2)
            else Behind(front + [rest[0]], Scan(rest[1..], id, alive, t + 1))
  {
    var later := Scan(rest[1..], id, alive, t + 1);
    assert front + ([rest[0]] + later.kept) == (front + [rest[0]]) + later.kept;
  }

  class ResponseRouteRegistry {
    var nextId: nat
    var routes: seq<Entry>

    constructor ()
      ensures nextId == 1 && routes == []
    {
      nextId, routes := 1, [];
    }

    /** The atomic increment, outside the lock. */
    method AllocateId() returns (id: nat)
      modifies this`nextId
      ensures id == old(nextId) && nextId == (old(nextId) + 1) % ID_SPACE
    {
      id := nextId;
      nextId := (nextId + 1) % ID_SPACE;
    }

    /** One registration that nothing comes between. */
    method Register(route: Option<Route>) returns (id: nat)
      modifies this
      ensures route.None? ==> id == 0 && nextId == old(nextId) && routes == old(routes)
      ensures route.Some? ==>
                id == old(nextId) && nextId == (old(nextId) + 1) % ID_SPACE
                && routes == old(routes) + [Entry(id, route.value)]
    {
      if route.None? {
        return 0;
      }
      id := AllocateId();
      routes := routes + [Entry(id, route.value)];
    }

    method Unregister(id: nat)
      modifies this`routes
      ensures routes == if id == 0 then old(routes) else WithoutId(old(routes), id)
    {
      if id == 0 {
        return;
      }
      for i := 0 to |routes|
        invariant routes == old(routes)
        invariant IndexOfId(routes, id) == i + IndexOfId(routes[i..], id)
      {
        if routes[i].id == id {
          routes := routes[..i] + routes[i+1..];
          return;
        }
        assert routes[i..][1..] == routes[i+1..];
      }
    }

    method Resolve(id: nat, alive: Liveness, now: nat) returns (route: Option<Route>)
      modifies this`routes
      ensures id == 0 ==> route.None? && routes == old(routes)
      ensures id != 0 ==>
                routes == Scan(old(routes), id, alive, now).kept && route == Scan(old(routes), id, alive, now).found
    {
      if id == 0 {
        return None;
      }
      ghost var whole := Scan(routes, id, alive, now);
      var i, time := 0, now;
      BehindNothing(whole);
      while i < |routes|
        invariant 0 <= i <= |routes|
        invariant whole == Behind(routes[..i], Scan(routes[i..], id, alive, time))
        decreases |routes| - i
      {
        ghost var front, rest := routes[..i], routes[i..];
        assert rest[0] == routes[i] && rest[1..] == routes[i+1..] && routes == front + rest;
        ScanStep(front, rest, id, alive, time);
        if !alive(time, routes[i].route) {
          routes := routes[..i] + routes[i+1..];
          assert routes[..i] == front && routes[i..] == rest[1..];
          time := time + 1;
          continue;
        }
        if routes[i].id == id {
          return if alive(time + 1, routes[i].route) then Some(routes[i].route) else None;
        }
        assert routes[..i+1] == front + [rest[0]];
        i, time := i + 1, time + 1;
      }
      assert routes[..i] + [] == routes;
      route := None;
    }
  }

  // ----- what resolution achieves

  ghost predicate DistinctIds(routes: seq<Entry>) {
    forall i, j :: 0 <= i < j < |routes| ==> routes[i].id != routes[j].id
  }

  /** Every remaining entry was there, in the same order; every missing one is dead. */
  ghost predicate PrunedFrom(kept: seq<Entry>, routes: seq<Entry>, alive: Liveness, t: nat)
    decreases |routes|
  {
    if routes == [] then kept == []
    else
      || (kept != [] && kept[0] == routes[0] && PrunedFrom(kept[1..], routes[1..], alive, t))
      || (!alive(t, routes[0].route) && PrunedFrom(kept, routes[1..], alive, t))
  }

  lemma {:induction false} PrunedRefl(routes: seq<Entry>, alive: Liveness, t: nat)
    ensures PrunedFrom(routes, routes, alive, t)
    decreases |routes|
  {
    if routes != [] {
      PrunedRefl(routes[1..], alive, t);
    }
  }

  /** Resolving erases dead entries only; what it returns was registered under the id asked for and was
      alive when it was locked; and an entry whose route lives throughout the call is found, provided no
      other entry has its id. */
  lemma {:induction false} ResolveIsRight(routes: seq<Entry>, id: nat, alive: Liveness, t: nat)
    requires Fading(alive)
    ensures var scanned := Scan(routes, id, alive, t);
            && t <= scanned.time
            && PrunedFrom(scanned.kept, routes, alive, scanned.time)
            && (scanned.found.Some? ==>
                  && Entry(id, scanned.found.value) in routes
                  && 0 < scanned.time && alive(scanned.time - 1, scanned.found.value))
            && (forall r: Route :: Entry(id, r) in routes && DistinctIds(routes) && alive(scanned.time, r) ==>
                  scanned.found == Some(r))
    decreases |routes|
  {
    if routes != [] {
      var scanned := Scan(routes, id, alive, t);
      ResolveIsRight(routes[1..], id, alive, t + 1);
      assert routes == [routes[0]] + routes[1..];
      if !alive(t, routes[0].route) {
        assert !alive(scanned.time, routes[0].route);
      } else if routes[0].id == id {
        PrunedRefl(routes, alive, scanned.time);
        forall r: Route | Entry(id, r) in routes && DistinctIds(routes) && alive(scanned.time, r)
          ensures scanned.found == Some(r)
        {
          var i :| 0 <= i < |routes| && routes[i] == Entry(id, r);
          assert i == 0;
        }
      } else {
        assert scanned.kept[1..] == Scan(routes[1..], id, alive, t + 1).kept;
      }
    }
  }

  lemma {:induction false} PrunedMembers(kept: seq<Entry>, routes: seq<Entry>, alive: Liveness, t: nat)
    requires PrunedFrom(kept, routes, alive, t)
    ensures forall e :: e in kept ==> e in routes
    ensures forall e :: e in routes && alive(t, e.route) ==> e in kept
    ensures DistinctIds(routes) ==> DistinctIds(kept)
    decreases |routes|
  {
    if routes != [] {
      assert routes == [routes[0]] + routes[1..];
      if kept != [] && kept[0] == routes[0] && PrunedFrom(kept[1..], routes[1..], alive, t) {
        PrunedMembers(kept[1..], routes[1..], alive, t);
        assert kept == [kept[0]] + kept[1..];
        if DistinctIds(routes) {
          forall j | 0 < j < |kept| ensures kept[j].id != kept[0].id {
            assert kept[j] in kept[1..] by { assert kept[1..][j-1] == kept[j]; }
            var k :| 0 <= k < |routes[1..]| && routes[1..][k] == kept[j];
            assert routes[k+1].id != routes[0].id;
          }
          forall i, j | 0 <= i < j < |kept| ensures kept[i].id != kept[j].id {
            if i != 0 {
              assert kept[i] == kept[1..][i-1] && kept[j] == kept[1..][j-1];
            }
          }
        }
      } else {
        PrunedMembers(kept, routes[1..], alive, t);
      }
    }
  }

  // ----- every interleaving

  /** `pending` are the registrations between their increment and their insertion, in any number of
      threads; `ids` are the ids handed out so far, in order, and `owner` remembers which route each of
      them was issued for. */
  datatype System = System(
    nextId: nat,
    ids: seq<nat>,
    pending: seq<Entry>,
    routes: seq<Entry>,
    owner: map<nat, Route>)
  {
    function Issued(): nat {
      |ids|
    }
  }

  datatype Step =
    | Allocate(route: Route)
    | Insert(index: nat)
    | Unregister(id: nat)
    | Resolve(id: nat, alive: Liveness, now: nat)

  const START := System(1, [], [], [], map[])

  function Do(s: System, step: Step): System {
    match step
    case Allocate(route) =>
      System((s.nextId + 1) % ID_SPACE, s.ids + [s.nextId], s.pending + [Entry(s.nextId, route)], s.routes,
             s.owner[s.nextId := route])
    case Insert(k) =>
      if |s.pending| <= k then s
      else s.(pending := s.pending[..k] + s.pending[k+1..], routes := s.routes + [s.pending[k]])
    case Unregister(id) => if id == 0 then s else s.(routes := WithoutId(s.routes, id))
    case Resolve(id, alive, now) => if id == 0 then s else s.(routes := Scan(s.routes, id, alive, now).kept)
  }

  function After(s: System, steps: seq<Step>): System
    decreases |steps|
  {
    if steps == [] then s else After(Do(s, steps[0]), steps[1..])
  }

  ghost predicate IdsInOrder(s: System) {
    && DistinctIds(s.pending + s.routes)
    && (forall e :: e in s.pending + s.routes ==>
          1 <= e.id <= s.Issued() && e.id in s.owner && s.owner[e.id] == e.route)
    && (forall id :: id in s.owner ==> 1 <= id <= s.Issued())
  }

  /** Fewer than 2^32 registrations so far. */
  ghost predicate Sound(s: System) {
    s.Issued() < ID_SPACE && s.nextId == (1 + s.Issued()) % ID_SPACE && IdsInOrder(s)
  }

  lemma {:induction false} Subset(before: seq<Entry>, after: seq<Entry>, other: seq<Entry>)
    requires DistinctIds(other + before) && DistinctIds(after) && forall e :: e in after ==> e in before
    ensures DistinctIds(other + after)
    ensures forall e :: e in other + after ==> e in other + before
  {
    var all, all' := other + before, other + after;
    forall i, j | 0 <= i < j < |all'| ensures all'[i].id != all'[j].id {
      if j < |other| {
        assert all[i] == all'[i] && all[j] == all'[j];
      } else if i < |other| {
        assert all'[j] in after;
        var k :| 0 <= k < |before| && before[k] == all'[j];
        assert all[i] == all'[i] && all[|other| + k] == all'[j];
      } else {
        assert all'[i] == after[i - |other|] && all'[j] == after[j - |other|];
      }
    }
  }

  lemma {:induction false} DistinctSuffix(other: seq<Entry>, routes: seq<Entry>)
    requires DistinctIds(other + routes)
    ensures DistinctIds(routes)
  {
    forall i, j | 0 <= i < j < |routes| ensures routes[i].id != routes[j].id {
      assert (other + routes)[|other| + i] == routes[i] && (other + routes)[|other| + j] == routes[j];
    }
  }

  lemma {:induction false} AllocateSound(s: System, route: Route)
    requires Sound(s) && s.Issued() + 1 < ID_SPACE
    ensures Sound(Do(s, Allocate(route)))
  {
    var t := Do(s, Allocate(route));
    var entry := Entry(s.nextId, route);
    assert s.nextId == s.Issued() + 1;
    var all, all' := s.pending + s.routes, t.pending + t.routes;
    forall i, j | 0 <= i < j < |all'| ensures all'[i].id != all'[j].id {
      var n := |s.pending|;
      assert all'[n] == entry;
      assert i < n ==> all'[i] == all[i];
      assert i > n ==> all'[i] == all[i-1];
      assert j < n ==> all'[j] == all[j];
      assert j > n ==> all'[j] == all[j-1];
    }
    forall e | e in all' ensures e == entry || e in all {
      assert e in t.pending || e in t.routes;
    }
  }

  lemma {:induction false} InsertSound(s: System, k: nat)
    requires Sound(s) && k < |s.pending|
    ensures Sound(Do(s, Insert(k)))
  {
    var t := Do(s, Insert(k));
    var all, all' := s.pending + s.routes, t.pending + t.routes;
    var n := |all|;
    assert |all'| == n;
    assert forall i :: 0 <= i < n ==> all'[i] == all[if i < k then i else if i < n - 1 then i + 1 else k];
  }

  lemma {:induction false} WithoutMembers(routes: seq<Entry>, id: nat)
    requires DistinctIds(routes)
    ensures DistinctIds(WithoutId(routes, id)) && forall e :: e in WithoutId(routes, id) ==> e in routes
  {
    var rest := WithoutId(routes, id);
    var i := IndexOfId(routes, id);
    if i < |routes| {
      assert forall k :: 0 <= k < |rest| ==> rest[k] == routes[if k < i then k else k + 1];
    }
  }

  /** The entries under any other id, in order; and how many there are under this one. */
  function Others(routes: seq<Entry>, id: nat): seq<Entry> {
    if routes == [] then [] else (if routes[0].id == id then [] else [routes[0]]) + Others(routes[1..], id)
  }

  function CountOf(routes: seq<Entry>, id: nat): nat {
    if routes == [] then 0 else (if routes[0].id == id then 1 else 0) + CountOf(routes[1..], id)
  }

  lemma {:induction false} CountZero(routes: seq<Entry>, id: nat)
    ensures CountOf(routes, id) == 0 <==> forall e :: e in routes ==> e.id != id
    ensures CountOf(routes, id) == 0 ==> Others(routes, id) == routes
  {
    if routes != [] {
      CountZero(routes[1..], id);
      assert routes == [routes[0]] + routes[1..];
    }
  }

  lemma {:induction false} OthersMembers(routes: seq<Entry>, id: nat)
    ensures forall e :: e in Others(routes, id) <==> e in routes && e.id != id
  {
    if routes != [] {
      OthersMembers(routes[1..], id);
      assert routes == [routes[0]] + routes[1..];
    }
  }

  /** Unregistering takes exactly one entry with the id away, if there is one, and leaves all others as they
      are, in order. */
  lemma {:induction false} UnregisterTakesOne(routes: seq<Entry>, id: nat)
    ensures Others(WithoutId(routes, id), id) == Others(routes, id)
    ensures CountOf(WithoutId(routes, id), id) == if CountOf(routes, id) == 0 then 0 else CountOf(routes, id) - 1
  {
    if routes != [] {
      if routes[0].id == id {
        assert WithoutId(routes, id) == routes[1..];
      } else {
        UnregisterTakesOne(routes[1..], id);
        assert WithoutId(routes, id) == [routes[0]] + WithoutId(routes[1..], id);
      }
    }
  }

  lemma {:induction false} DistinctCount(routes: seq<Entry>, id: nat)
    requires DistinctIds(routes)
    ensures CountOf(routes, id) <= 1
  {
    if routes != [] {
      DistinctCount(routes[1..], id);
      if routes[0].id == id {
        forall e | e in routes[1..] ensures e.id != id {
          var k :| 0 <= k < |routes[1..]| && routes[1..][k] == e;
          assert routes[k+1] == e;
        }
        CountZero(routes[1..], id);
      }
    }
  }

  /** Where ids are distinct, what remains is what was there under other ids, in order. */
  lemma {:induction false} UnregisteredIsGone(routes: seq<Entry>, id: nat)
    requires DistinctIds(routes)
    ensures WithoutId(routes, id) == Others(routes, id)
    ensures forall e :: e in WithoutId(routes, id) <==> e in routes && e.id != id
  {
    UnregisterTakesOne(routes, id);
    DistinctCount(routes, id);
    CountZero(WithoutId(routes, id), id);
    OthersMembers(routes, id);
  }

  ghost predicate FadingStep(step: Step) {
    step.Resolve? ==> Fading(step.alive)
  }

  lemma {:induction false} StepSound(s: System, step: Step)
    requires Sound(s) && FadingStep(step) && Do(s, step).Issued() < ID_SPACE
    ensures Sound(Do(s, step))
  {
    DistinctSuffix(s.pending, s.routes);
    match step {
      case Allocate(route) => AllocateSound(s, route);
      case Insert(k) => if k < |s.pending| { InsertSound(s, k); }
      case Unregister(id) =>
        if id != 0 {
          WithoutMembers(s.routes, id);
          Subset(s.routes, WithoutId(s.routes, id), s.pending);
        }
      case Resolve(id, alive, now) =>
        if id != 0 {
          var scanned := Scan(s.routes, id, alive, now);
          ResolveIsRight(s.routes, id, alive, now);
          PrunedMembers(scanned.kept, s.routes, alive, scanned.time);
          Subset(s.routes, scanned.kept, s.pending);
        }
    }
  }

  lemma {:induction false} IssuedGrows(s: System, steps: seq<Step>)
    ensures s.Issued() <= After(s, steps).Issued()
    decreases |steps|
  {
    if steps != [] {
      IssuedGrows(Do(s, steps[0]), steps[1..]);
    }
  }

  /** Over every interleaving with fewer than 2^32 registrations: stored and pending ids are non-zero and
      pairwise distinct, and each still belongs to the route it was issued for. */
  lemma {:induction false} IdsStaySound(s: System, steps: seq<Step>)
    requires Sound(s) && After(s, steps).Issued() < ID_SPACE
    requires forall i :: 0 <= i < |steps| ==> FadingStep(steps[i])
    ensures Sound(START)
    ensures Sound(After(s, steps))
    decreases |steps|
  {
    if steps != [] {
      IssuedGrows(Do(s, steps[0]), steps[1..]);
      assert FadingStep(steps[0]);
      StepSound(s, steps[0]);
      assert forall i :: 0 <= i < |steps[1..]| ==> steps[1..][i] == steps[i+1];
      IdsStaySound(Do(s, steps[0]), steps[1..]);
    }
  }

  /** In any state such a run can reach, resolving an id never returns a route registered under another,
      and it returns the right one whenever that is registered and stays alive throughout the call. */
  lemma {:induction false} ResolveInAnyRun(steps: seq<Step>, id: nat, alive: Liveness, now: nat)
    requires After(START, steps).Issued() < ID_SPACE && Fading(alive) && id != 0
    requires forall i :: 0 <= i < |steps| ==> FadingStep(steps[i])
    ensures var s := After(START, steps);
            var scanned := Scan(s.routes, id, alive, now);
            && (scanned.found.Some? ==> id in s.owner && s.owner[id] == scanned.found.value)
            && (forall r: Route :: Entry(id, r) in s.routes && alive(scanned.time, r) ==> scanned.found == Some(r))
  {
    IdsStaySound(START, steps);
    var s := After(START, steps);
    DistinctSuffix(s.pending, s.routes);
    ResolveIsRight(s.routes, id, alive, now);
    assert forall e :: e in s.routes ==> e in s.pending + s.routes;
  }

  // ----- an unregistered id finds nothing any more

  /** The id has been handed out, and no entry, stored or on its way, has it. */
  ghost predicate Gone(s: System, id: nat) {
    1 <= id <= s.Issued() && forall e :: e in s.pending + s.routes ==> e.id != id
  }

  lemma {:induction false} StepKeepsGone(s: System, step: Step, id: nat)
    requires Sound(s) && FadingStep(step) && Do(s, step).Issued() < ID_SPACE && Gone(s, id)
    ensures Gone(Do(s, step), id)
  {
    var s' := Do(s, step);
    forall e | e in s'.pending + s'.routes ensures e.id != id {
      assert forall x :: x in s.pending || x in s.routes ==> x in s.pending + s.routes;
      assert e in s'.pending || e in s'.routes;
      match step {
        case Allocate(route) =>
        case Insert(k) =>
        case Unregister(other) =>
          DistinctSuffix(s.pending, s.routes);
          WithoutMembers(s.routes, other);
        case Resolve(other, alive, now) =>
          var scanned := Scan(s.routes, other, alive, now);
          ResolveIsRight(s.routes, other, alive, now);
          PrunedMembers(scanned.kept, s.routes, alive, scanned.time);
      }
    }
  }

  lemma {:induction false} RunKeepsGone(s: System, steps: seq<Step>, id: nat)
    requires Sound(s) && Gone(s, id) && After(s, steps).Issued() < ID_SPACE
    requires forall i :: 0 <= i < |steps| ==> FadingStep(steps[i])
    ensures Gone(After(s, steps), id)
    decreases |steps|
  {
    if steps != [] {
      IssuedGrows(Do(s, steps[0]), steps[1..]);
      StepSound(s, steps[0]);
      StepKeepsGone(s, steps[0], id);
      assert forall i :: 0 <= i < |steps[1..]| ==> steps[1..][i] == steps[i+1];
      RunKeepsGone(Do(s, steps[0]), steps[1..], id);
    }
  }

  /** The first entry with the id cannot be found where there is none. */
  lemma {:induction false} NothingFound(routes: seq<Entry>, id: nat, alive: Liveness, now: nat)
    requires forall e :: e in routes ==> e.id != id
    ensures Scan(routes, id, alive, now).found.None?
    decreases |routes|
  {
    if routes != [] {
      assert routes[0] in routes && forall e :: e in routes[1..] ==> e in routes;
      NothingFound(routes[1..], id, alive, now + 1);
    }
  }

  /** An id that is stored is not also on its way. */
  lemma {:induction false} PendingApart(s: System, id: nat)
    requires Sound(s) && exists e :: e in s.routes && e.id == id
    ensures 1 <= id <= s.Issued() && forall e :: e in s.pending ==> e.id != id
  {
    var all := s.pending + s.routes;
    var stored :| stored in s.routes && stored.id == id;
    var j :| 0 <= j < |s.routes| && s.routes[j] == stored;
    assert all[|s.pending| + j] == stored;
    forall e | e in s.pending ensures e.id != id {
      var i :| 0 <= i < |s.pending| && s.pending[i] == e;
      assert all[i] == e;
    }
  }

  /** Once the route of an inserted id has been unregistered, no later resolution of that id finds anything,
      whatever happens in between. */
  lemma {:induction false} UnregisteredStaysGone(before: seq<Step>, id: nat, after: seq<Step>, alive: Liveness,
                                                 now: nat)
    requires forall i :: 0 <= i < |before| ==> FadingStep(before[i])
    requires forall i :: 0 <= i < |after| ==> FadingStep(after[i])
    requires exists e :: e in After(START, before).routes && e.id == id
    requires After(Do(After(START, before), Unregister(id)), after).Issued() < ID_SPACE
    ensures Scan(After(Do(After(START, before), Unregister(id)), after).routes, id, alive, now).found.None?
  {
    var s := After(START, before);
    var gone := Do(s, Unregister(id));
    IssuedGrows(gone, after);
    IdsStaySound(START, before);
    StepSound(s, Unregister(id));
    DistinctSuffix(s.pending, s.routes);
    UnregisteredIsGone(s.routes, id);
    PendingApart(s, id);
    RunKeepsGone(gone, after, id);
    var last := After(gone, after);
    assert forall e :: e in last.routes ==> e in last.pending + last.routes;
    NothingFound(last.routes, id, alive, now);
  }

  // ----- when the ids run out

  /** What holds of every run, however long: the ids count up from one and wrap around. */
  ghost predicate Counted(s: System) {
    && s.nextId == (1 + s.Issued()) % ID_SPACE
    && forall k :: 0 <= k < |s.ids| ==> s.ids[k] == (1 + k) % ID_SPACE
  }

  lemma {:induction false} IdsCountUp(s: System, steps: seq<Step>)
    requires Counted(s)
    ensures Counted(After(s, steps))
    decreases |steps|
  {
    if steps != [] {
      IdsCountUp(Do(s, steps[0]), steps[1..]);
    }
  }

  ghost predicate NonZero(ids: seq<nat>) {
    forall k :: 0 <= k < |ids| ==> ids[k] != 0
  }

  ghost predicate Different(ids: seq<nat>) {
    forall j, k :: 0 <= j < k < |ids| ==> ids[j] != ids[k]
  }

  /** The bound is sharp.  Over every run the ids handed out are non-zero and pairwise distinct exactly as
      long as fewer than 2^32 have been; registration number 2^32 is handed the reserved id zero, and the
      next one the id of the first. */
  lemma {:induction false} IdsRunOutIff(steps: seq<Step>)
    ensures var s := After(START, steps);
            && (NonZero(s.ids) && Different(s.ids) <==> s.Issued() < ID_SPACE)
            && (ID_SPACE <= s.Issued() ==> s.ids[ID_SPACE - 1] == 0)
            && (ID_SPACE < s.Issued() ==> s.ids[ID_SPACE] == s.ids[0])
  {
    IdsCountUp(START, steps);
    var s := After(START, steps);
    if s.Issued() < ID_SPACE {
      assert forall k :: 0 <= k < |s.ids| ==> s.ids[k] == 1 + k;
    } else {
      assert s.ids[ID_SPACE - 1] == ID_SPACE % ID_SPACE == 0;
    }
  }

  lemma {:induction false} WithoutOther(routes: seq<Entry>, id: nat, e: Entry)
    requires e in routes && e.id != id
    ensures e in WithoutId(routes, id)
  {
    var rest, i := WithoutId(routes, id), IndexOfId(routes, id);
    if i < |routes| {
      var k :| 0 <= k < |routes| && routes[k] == e;
      assert rest[if k < i then k else k - 1] == e;
    }
  }

  /** A route that is never seen dead by the resolutions of a run. */
  ghost predicate SeenAlive(steps: seq<Step>, route: Route) {
    forall i, t: nat :: 0 <= i < |steps| && steps[i].Resolve? ==> steps[i].alive(t, route)
  }

  /** An entry with the id zero is stuck.  Neither resolving nor unregistering accepts that id, so as long
      as its route lives no step of any run removes the entry. */
  lemma {:induction false} ZeroIdIsStuck(s: System, steps: seq<Step>, route: Route)
    requires Entry(0, route) in s.routes
    requires SeenAlive(steps, route) && forall i :: 0 <= i < |steps| ==> FadingStep(steps[i])
    ensures Entry(0, route) in After(s, steps).routes
    decreases |steps|
  {
    if steps != [] {
      var step := steps[0];
      assert FadingStep(step);
      match step {
        case Allocate(r) =>
        case Insert(k) =>
        case Unregister(id) => if id != 0 { WithoutOther(s.routes, id, Entry(0, route)); }
        case Resolve(id, alive, now) =>
          if id != 0 {
            var scanned := Scan(s.routes, id, alive, now);
            ResolveIsRight(s.routes, id, alive, now);
            assert alive(scanned.time, route);
            PrunedMembers(scanned.kept, s.routes, alive, scanned.time);
          }
      }
      assert forall i :: 0 <= i < |steps[1..]| ==> steps[1..][i] == steps[i+1];
      ZeroIdIsStuck(Do(s, step), steps[1..], route);
    }
  }
}
