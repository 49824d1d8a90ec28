/** What becomes of the tree when every registration handle is destroyed. */
module HandleDropping {
  import opened Prelude
  import opened CommandTree
  import opened HandleRuns

  // ----- dropping all handles

  /** Destroying the handles from number `h` on, one after the other. */
  function ResetFrom(h: nat, n: nat): seq<Step>
    requires h <= n
    decreases n - h
  {
    if h == n then [] else [Reset(h)] + ResetFrom(h + 1, n)
  }

  ghost predicate NoneActive(handles: seq<Option<Handle>>, n: nat) {
    n <= |handles| && forall h :: 0 <= h < n ==> handles[h].None?
  }

  /** The trees differ in nothing but the list of top-level commands. */
  ghost predicate Trimmed(g: Tree<nat>, g': Tree<nat>) {
    && 0 in g && g'.Keys == g.Keys
    && forall n :: n in g ==> g'[n] == if n == 0 then g[0].(children := g'[0].children) else g[n]
  }

  /** What a reset leaves alone. */
  ghost predicate SameBut(s: State, s': State, h: nat) {
    && |s'.handles| == |s.handles|
    && (NoneActive(s.handles, h) && h < |s.handles| ==> NoneActive(s'.handles, h + 1))
    && s'.direct == s.direct && s'.owned == s.owned && s'.registry.next == s.registry.next
    && Trimmed(s.registry.tree, s'.registry.tree)
  }

  lemma {:induction false} ResetTrims(s: State, h: nat)
    requires InCharge(s) && h < |s.handles|
    ensures SameBut(s, ResetHandle(s, h), h)
  {
    if s.handles[h].Some? {
      InChargeIff(s);
      assert LeadsHome(s, h);
      var i := TakesAnswering(s, [s.handles[h].value.name]);
    }
  }

  lemma {:induction false} ResetsKeepCharge(s: State, h: nat)
    requires InCharge(s) && h <= |s.handles|
    ensures InCharge(After(s, ResetFrom(h, |s.handles|)))
    decreases |s.handles| - h
  {
    if h < |s.handles| {
      var steps := ResetFrom(h, |s.handles|);
      assert steps[0] == Reset(h) && steps[1..] == ResetFrom(h + 1, |s.handles|);
      StepInChargeIff(s, Reset(h));
      ResetsKeepCharge(Do(s, Reset(h)), h + 1);
    }
  }

  lemma {:induction false} ResetsClear(s: State, h: nat)
    requires InCharge(s) && NoneActive(s.handles, h)
    ensures var s' := After(s, ResetFrom(h, |s.handles|));
            && |s'.handles| == |s.handles| && NoneActive(s'.handles, |s.handles|)
            && s'.direct == s.direct && s'.owned == s.owned && Trimmed(s.registry.tree, s'.registry.tree)
    decreases |s.handles| - h
  {
    if h < |s.handles| {
      var steps, s1 := ResetFrom(h, |s.handles|), ResetHandle(s, h);
      assert steps[0] == Reset(h) && steps[1..] == ResetFrom(h + 1, |s.handles|);
      StepInChargeIff(s, Reset(h));
      ResetTrims(s, h);
      assert Do(s, Reset(h)) == s1 && NoneActive(s1.handles, h + 1);
      ResetsClear(s1, h + 1);
    }
  }

  /** The state once every handle has been destroyed. */
  ghost function Dropped(s: State): State
    requires TreeRuns.Sound(s.registry)
  {
    After(s, ResetFrom(0, |s.handles|))
  }

  lemma {:induction false} NothingOwned(s: State)
    requires InCharge(s) && NoneActive(s.handles, |s.handles|)
    ensures s.Tops() == s.direct
    ensures forall n :: n in s.owned <==> n in s.dropped
  {
    forall n | n in s.Tops() ensures n !in s.owned {
      assert forall h: nat :: !Holds(s.handles, h, n);
    }
    UnownedAll(s.Tops(), s.owned);
  }

  /** Among the commands no handle owns, the first that answers is the first of all, if no handle owns it. */
  lemma {:induction false} FirstUnowned(g: Tree<nat>, nodes: seq<nat>, owned: set<nat>, token: string)
    requires forall k :: 0 <= k < |nodes| ==> nodes[k] in g
    requires var f := FirstMatch(g, nodes, token); f < |nodes| ==> nodes[f] !in owned
    ensures forall k :: 0 <= k < |Unowned(nodes, owned)| ==> Unowned(nodes, owned)[k] in g
    ensures var f, rest := FirstMatch(g, nodes, token), Unowned(nodes, owned);
            var f' := FirstMatch(g, rest, token);
            (f < |nodes| <==> f' < |rest|) && (f < |nodes| ==> rest[f'] == nodes[f])
  {
    var f, rest := FirstMatch(g, nodes, token), Unowned(nodes, owned);
    if nodes != [] {
      var front, last := nodes[..|nodes|-1], nodes[|nodes|-1];
      FirstMatchIs(g, front, token, Min(f, |front|));
      FirstUnowned(g, front, owned, token);
      var early := Unowned(front, owned);
      var f' := FirstMatch(g, early, token);
      FirstMatchIs(g, rest, token, if f == |nodes| then |rest| else f');
    }
  }

  /** Below the top level a trimmed tree is the same. */
  lemma {:induction false} TrimmedBelow(g: Tree<nat>, g': Tree<nat>, n: nat, q: seq<string>)
    requires TreeShaped(g, 0) && TreeShaped(g', 0) && Trimmed(g, g') && n in g && n != 0
    ensures Resolve(g', n, q) == Resolve(g, n, q)
    decreases |q|
  {
    if q != [] {
      var i := FirstMatch(g, g[n].children, q[0]);
      FirstMatchIs(g', g'[n].children, q[0], i);
      if i < |g[n].children| {
        assert !IsChild(g, n, i, 0);
        TrimmedBelow(g, g', g[n].children[i], q[1..]);
      }
    }
  }

  lemma {:induction false} TrimmedResolve(s: State, g': Tree<nat>, q: seq<string>)
    requires InCharge(s) && TreeShaped(g', 0) && Trimmed(s.registry.tree, g')
    requires g'[0].children == Unowned(s.Tops(), s.owned)
    requires q != [] ==> Answering(s, q[..1]).None? || Answering(s, q[..1]).value !in s.owned
    ensures Resolve(g', 0, q) == Resolve(s.registry.tree, 0, q)
  {
    var g := s.registry.tree;
    if q != [] {
      FirstUnowned(g, s.Tops(), s.owned, q[0]);
      var rest := g'[0].children;
      FirstMatchIs(g', rest, q[0], FirstMatch(g, rest, q[0]));
      var i := FirstMatch(g, s.Tops(), q[0]);
      if i < |s.Tops()| {
        assert !IsChild(g, 0, i, 0);
        TrimmedBelow(g, g', s.Tops()[i], q[1..]);
      }
    }
  }

  /** Dropping all handles leaves at the top level exactly the commands made without one, in order, and
      everything registered through a handle has then been taken away by one.  Every path whose first step
      is not onto a handle's command leads where it led before. */
  lemma {:induction false} DroppingAllHandlesRestores(s: State)
    requires InCharge(s)
    ensures Dropped(s).Tops() == s.direct
    ensures InCharge(Dropped(s)) && forall n :: n in s.owned <==> n in Dropped(s).dropped
    ensures Trimmed(s.registry.tree, Dropped(s).registry.tree)
    ensures forall q: seq<string> ::
              (q != [] ==> Answering(s, q[..1]).None? || Answering(s, q[..1]).value !in s.owned) ==>
              Resolve(Dropped(s).registry.tree, 0, q) == Resolve(s.registry.tree, 0, q)
  {
    ResetsKeepCharge(s, 0);
    ResetsClear(s, 0);
    NothingOwned(Dropped(s));
    forall q: seq<string> | q != [] ==> Answering(s, q[..1]).None? || Answering(s, q[..1]).value !in s.owned
      ensures Resolve(Dropped(s).registry.tree, 0, q) == Resolve(s.registry.tree, 0, q)
    {
      TrimmedResolve(s, Dropped(s).registry.tree, q);
    }
  }

  // ----- back to the original tree

  /** A step that changes commands numbered below `first` only through handles. */
  ghost predicate LeavesAlone(first: nat, s: State, step: Step)
    requires TreeRuns.Sound(s.registry)
  {
    match step
    case Registry(Command(name)) => Answering(s, [name]).Some?
    case Registry(Subcommand(parent, _)) => first <= parent
    case Registry(RemoveSubcommand(parent, _)) => first <= parent
    case Registry(Configure(node, _, _, _)) => first <= node
    case Registry(UnregisterPath(path)) =>
      PlaceOf(s.registry.tree, 0, path).At? ==> first <= PlaceOf(s.registry.tree, 0, path).parent
    case _ => true
  }

  ghost predicate AloneRun(first: nat, s: State, steps: seq<Step>)
    requires TreeRuns.Sound(s.registry)
    decreases |steps|
  {
    steps != [] ==> LeavesAlone(first, s, steps[0]) && AloneRun(first, Do(s, steps[0]), steps[1..])
  }

  /** The commands numbered below `first` are as in the tree `g`, but for the list at the top level. */
  ghost predicate Intact(g: Tree<nat>, first: nat, g': Tree<nat>) {
    && 0 in g && 0 in g'
    && forall n :: n in g ==>
         n < first && n in g' && g'[n] == if n == 0 then g[0].(children := g'[0].children) else g[n]
  }

  lemma {:induction false} IntactReset(g: Tree<nat>, first: nat, s: State, h: nat)
    requires InCharge(s) && h < |s.handles| && Intact(g, first, s.registry.tree)
    ensures Intact(g, first, ResetHandle(s, h).registry.tree)
    ensures ResetHandle(s, h).registry.next == s.registry.next && ResetHandle(s, h).direct == s.direct
  {
    ResetTrims(s, h);
  }

  lemma {:induction false} IntactUnregister(g: Tree<nat>, first: nat, s: State, path: seq<string>)
    requires TreeRuns.Sound(s.registry) && Intact(g, first, s.registry.tree) && 1 <= first
    requires LeavesAlone(first, s, Registry(TreeRuns.UnregisterPath(path)))
    ensures Intact(g, first, TreeRuns.Do(s.registry, TreeRuns.UnregisterPath(path)).tree)
    ensures Answering(s, path).None?
  {
    if Answering(s, path).Some? {
      assert path == [path[0]];
      UnregisterAt(s.registry.tree, 0, path, 0);
      UnregisterKeepsShape(s.registry.tree, 0, path);
      assert false;
    }
  }

  lemma {:induction false} IntactRegistry(g: Tree<nat>, first: nat, s: State, step: TreeRuns.Step)
    requires TreeRuns.Sound(s.registry) && Intact(g, first, s.registry.tree) && 1 <= first <= s.registry.next
    requires LeavesAlone(first, s, Registry(step)) && !step.UnregisterPath?
    ensures Intact(g, first, TreeRuns.Do(s.registry, step).tree)
    ensures first <= TreeRuns.Do(s.registry, step).next
  {
  }

  lemma {:induction false} IntactStep(g: Tree<nat>, first: nat, s: State, step: Step)
    requires InCharge(s) && Intact(g, first, s.registry.tree) && 1 <= first <= s.registry.next
    requires LeavesAlone(first, s, step)
    ensures Intact(g, first, Do(s, step).registry.tree)
    ensures first <= Do(s, step).registry.next && Do(s, step).direct == s.direct
  {
    match step {
      case Registry(UnregisterPath(path)) => IntactUnregister(g, first, s, path);
      case Registry(other) => IntactRegistry(g, first, s, other);
      case MoveConstruct(_) =>
      case MoveAssign(to, _) => if to < |s.handles| { IntactReset(g, first, s, to); }
      case Reset(h) => if h < |s.handles| { IntactReset(g, first, s, h); }
    }
  }

  lemma {:induction false} IntactRun(g: Tree<nat>, first: nat, s: State, steps: seq<Step>)
    requires InCharge(s) && Intact(g, first, s.registry.tree) && 1 <= first <= s.registry.next
    requires HarmlessRun(s, steps) && AloneRun(first, s, steps)
    ensures Intact(g, first, After(s, steps).registry.tree) && After(s, steps).direct == s.direct
    decreases |steps|
  {
    if steps != [] {
      StepInChargeIff(s, steps[0]);
      IntactStep(g, first, s, steps[0]);
      IntactRun(g, first, Do(s, steps[0]), steps[1..]);
    }
  }

  /** A tree that contains another, node for node, resolves every path like it. */
  lemma {:induction false} ContainedResolves(g: Tree<nat>, g': Tree<nat>, n: nat, q: seq<string>)
    requires Closed(g) && Closed(g') && n in g && forall m :: m in g ==> m in g' && g'[m] == g[m]
    ensures Resolve(g', n, q) == Resolve(g, n, q)
    decreases |q|
  {
    if q != [] {
      var i := FirstMatch(g, g[n].children, q[0]);
      FirstMatchIs(g', g[n].children, q[0], i);
      if i < |g[n].children| {
        ContainedResolves(g, g', g[n].children[i], q[1..]);
      }
    }
  }

  /** From a state without active handles, whatever is then registered through handles, and done to or
      below the commands so registered, is undone by dropping the handles: every node of the original tree
      is as it was, the root and its list of commands included, and every path leads where it led. */
  lemma {:induction false} DroppingUndoesTheRun(s: State, steps: seq<Step>)
    requires InCharge(s) && NoneActive(s.handles, |s.handles|)
    requires HarmlessRun(s, steps) && AloneRun(s.registry.next, s, steps)
    ensures var g, g' := s.registry.tree, Dropped(After(s, steps)).registry.tree;
            && (forall n :: n in g ==> n in g' && g'[n] == g[n])
            && (forall q :: Resolve(g', 0, q) == Resolve(g, 0, q))
  {
    var g, s1 := s.registry.tree, After(s, steps);
    var g' := Dropped(s1).registry.tree;
    NothingOwned(s);
    IntactRun(g, s.registry.next, s, steps);
    HandlesStayInCharge(s, steps);
    DroppingAllHandlesRestores(s1);
    assert forall n :: n in g ==> n in g' && g'[n] == g[n];
    forall q ensures Resolve(g', 0, q) == Resolve(g, 0, q) {
      ContainedResolves(g, g', 0, q);
    }
  }
}
