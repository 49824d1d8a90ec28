/**
 The life of registration handles.  A handle stores the name of the command it was made for; that name is
 what it unregisters in the end, whoever answers to it by then.
 */
module HandleRuns {
  import opened Prelude
  import opened CommandTree
  import TreeRuns

  /** `node` is the command the handle was made for; the handle itself stores the name alone. */
  datatype Handle = Handle(name: string, node: nat)

  /** Handles are numbered in order of construction; None is an inactive one. */
  datatype State = State(
    registry: TreeRuns.RegistryState,
    handles: seq<Option<Handle>>,
    owned: set<nat>,      // the commands ever registered through a handle
    dropped: seq<nat>,    // the commands handles have taken away
    direct: seq<nat>)     // the top-level commands made without a handle and not directly unregistered since
  {
    ghost function Tops(): seq<nat>
      requires 0 in registry.tree
    {
      registry.tree[0].children
    }
  }

  /** `Registry(Register(name))` returns a handle. */
  datatype Step =
    | Registry(step: TreeRuns.Step)
    | MoveConstruct(from: nat)
    | MoveAssign(to: nat, from: nat)
    | Reset(handle: nat)      // also what the destructor does

  /** The top-level command that a path of one token leads to. */
  ghost function Answering(s: State, path: seq<string>): Option<nat>
    requires TreeRuns.Sound(s.registry)
  {
    if |path| == 1 then FindChild(s.registry.tree, 0, path[0]) else None
  }

  function Drop(nodes: seq<nat>, n: nat): seq<nat> {
    if nodes == [] then []
    else
      var last := nodes[|nodes|-1];
      Drop(nodes[..|nodes|-1], n) + if last == n then [] else [last]
  }

  ghost function DoRegistry(s: State, step: TreeRuns.Step): State
    requires TreeRuns.Sound(s.registry)
  {
    var s' := s.(registry := TreeRuns.Do(s.registry, step));
    var created := s.registry.next;
    match step
    case Command(name) => if Answering(s, [name]).Some? then s' else s'.(direct := s.direct + [created])
    case Register(name) =>
      if name == "" || Answering(s, [name]).Some? then s'.(handles := s.handles + [None])
      else s'.(handles := s.handles + [Some(Handle(name, created))], owned := s.owned + {created})
    case UnregisterPath(path) =>
      if Answering(s, path).None? then s' else s'.(direct := Drop(s.direct, Answering(s, path).value))
    case _ => s'
  }

  ghost function ResetHandle(s: State, h: nat): State
    requires TreeRuns.Sound(s.registry) && h < |s.handles|
  {
    if s.handles[h].None? then s
    else
      var path := [s.handles[h].value.name];
      var taken := Answering(s, path);
      s.(registry := TreeRuns.Do(s.registry, TreeRuns.UnregisterPath(path)), handles := s.handles[h := None],
         dropped := if taken.Some? then s.dropped + [taken.value] else s.dropped)
  }

  lemma {:induction false} ResetSound(s: State, h: nat)
    requires TreeRuns.Sound(s.registry) && h < |s.handles|
    ensures TreeRuns.Sound(ResetHandle(s, h).registry)
  {
    if s.handles[h].Some? {
      TreeRuns.StepSound(s.registry, TreeRuns.UnregisterPath([s.handles[h].value.name]));
    }
  }

  ghost function Do(s: State, step: Step): (s': State)
    requires TreeRuns.Sound(s.registry)
    ensures TreeRuns.Sound(s'.registry)
  {
    match step
    case Registry(step) => TreeRuns.StepSound(s.registry, step); DoRegistry(s, step)
    case MoveConstruct(from) =>
      if |s.handles| <= from then s else s.(handles := s.handles[from := None] + [s.handles[from]])
    case MoveAssign(to, from) =>
      if |s.handles| <= to || |s.handles| <= from || to == from then s
      else
        ResetSound(s, to);
        var s' := ResetHandle(s, to);
        s'.(handles := s'.handles[to := s'.handles[from]][from := None])
    case Reset(h) => if |s.handles| <= h then s else ResetSound(s, h); ResetHandle(s, h)
  }

  ghost function After(s: State, steps: seq<Step>): (s': State)
    requires TreeRuns.Sound(s.registry)
    ensures TreeRuns.Sound(s'.registry)
    decreases |steps|
  {
    if steps == [] then s else After(Do(s, steps[0]), steps[1..])
  }

  // ----- the invariant

  ghost predicate Holds(handles: seq<Option<Handle>>, h: nat, n: nat) {
    h < |handles| && handles[h].Some? && handles[h].value.node == n
  }

  /** Active handles and handle-registered top-level commands are in one-to-one correspondence. */
  ghost predicate Paired(handles: seq<Option<Handle>>, tops: seq<nat>, owned: set<nat>) {
    && (forall h: nat, n: nat :: Holds(handles, h, n) ==> n in tops && n in owned)
    && (forall h: nat, k: nat, n: nat :: Holds(handles, h, n) && Holds(handles, k, n) ==> h == k)
    && (forall n: nat :: n in tops && n in owned ==> exists h: nat :: Holds(handles, h, n))
  }

  ghost predicate Named(handles: seq<Option<Handle>>, g: Tree<nat>) {
    forall h: nat, n: nat :: Holds(handles, h, n) ==> n in g && g[n].name == handles[h].value.name
  }

  /** No sibling in front of a handle's command answers to its name. */
  ghost predicate Unshadowed(g: Tree<nat>, owned: set<nat>)
    requires Closed(g) && 0 in g
  {
    forall i, j :: 0 <= i < j < |g[0].children| && g[0].children[j] in owned ==>
      !g[g[0].children[i]].Matches(g[g[0].children[j]].name)
  }

  /** What handles ever registered is either still there or was taken away by a handle, once. */
  ghost predicate Accounted(tops: seq<nat>, owned: set<nat>, dropped: seq<nat>, next: nat) {
    && (forall n :: n in owned ==> n < next && (n in tops <==> n !in dropped))
    && (forall n :: n in dropped ==> n in owned)
    && (forall i, j :: 0 <= i < j < |dropped| ==> dropped[i] != dropped[j])
  }

  ghost function Unowned(nodes: seq<nat>, owned: set<nat>): seq<nat> {
    if nodes == [] then []
    else
      var last := nodes[|nodes|-1];
      Unowned(nodes[..|nodes|-1], owned) + if last in owned then [] else [last]
  }

  /** Handles and commands correspond, and the books are right. */
  ghost predicate Good(s: State) {
    && TreeRuns.Sound(s.registry)
    && Paired(s.handles, s.Tops(), s.owned)
    && Named(s.handles, s.registry.tree)
    && Accounted(s.Tops(), s.owned, s.dropped, s.registry.next)
    && Unowned(s.Tops(), s.owned) == s.direct
  }

  /** Beyond that, no command hides a handle's command from its handle. */
  ghost predicate InCharge(s: State) {
    Good(s) && Unshadowed(s.registry.tree, s.owned)
  }

  // ----- lists of commands

  ghost predicate NoRepeats(nodes: seq<nat>) {
    forall i, j :: 0 <= i < j < |nodes| ==> nodes[i] != nodes[j]
  }

  lemma {:induction false} TopsDiffer(g: Tree<nat>)
    requires TreeShaped(g, 0)
    ensures NoRepeats(g[0].children)
  {
    var tops := g[0].children;
    forall i, j | 0 <= i < j < |tops| ensures tops[i] != tops[j] {
      assert IsChild(g, 0, i, tops[i]) && IsChild(g, 0, j, tops[j]);
    }
  }

  lemma {:induction false} WithoutMembers(nodes: seq<nat>, i: nat)
    requires NoRepeats(nodes) && i < |nodes|
    ensures NoRepeats(Without(nodes, i))
    ensures forall n :: n in Without(nodes, i) <==> n in nodes && n != nodes[i]
  {
    var rest := Without(nodes, i);
    assert forall k :: 0 <= k < |rest| ==> rest[k] == nodes[if k < i then k else k + 1];
    forall n | n in nodes && n != nodes[i] ensures n in rest {
      var k :| 0 <= k < |nodes| && nodes[k] == n;
      assert rest[if k < i then k else k - 1] == n;
    }
  }

  lemma {:induction false} UnownedSnoc(nodes: seq<nat>, last: nat, owned: set<nat>)
    ensures Unowned(nodes + [last], owned) == Unowned(nodes, owned) + if last in owned then [] else [last]
  {
    assert (nodes + [last])[..|nodes|] == nodes;
  }

  lemma {:induction false} UnownedGrow(nodes: seq<nat>, owned: set<nat>, n: nat)
    requires n !in nodes
    ensures Unowned(nodes, owned + {n}) == Unowned(nodes, owned)
  {
    if nodes != [] {
      UnownedGrow(nodes[..|nodes|-1], owned, n);
    }
  }

  lemma {:induction false} UnownedMembers(nodes: seq<nat>, owned: set<nat>)
    ensures forall n :: n in Unowned(nodes, owned) <==> n in nodes && n !in owned
  {
    if nodes != [] {
      UnownedMembers(nodes[..|nodes|-1], owned);
      assert nodes == nodes[..|nodes|-1] + [nodes[|nodes|-1]];
    }
  }

  lemma {:induction false} DropAbsent(nodes: seq<nat>, n: nat)
    requires n !in nodes
    ensures Drop(nodes, n) == nodes
  {
    if nodes != [] {
      DropAbsent(nodes[..|nodes|-1], n);
      assert nodes == nodes[..|nodes|-1] + [nodes[|nodes|-1]];
    }
  }

  lemma {:induction false} UnownedWithout(nodes: seq<nat>, owned: set<nat>, i: nat)
    requires NoRepeats(nodes) && i < |nodes|
    ensures Unowned(Without(nodes, i), owned) == Drop(Unowned(nodes, owned), nodes[i])
    ensures nodes[i] in owned ==> Unowned(Without(nodes, i), owned) == Unowned(nodes, owned)
  {
    var front, last := nodes[..|nodes|-1], nodes[|nodes|-1];
    if i == |front| {
      assert Without(nodes, i) == front;
      UnownedMembers(front, owned);
      DropAbsent(Unowned(front, owned), last);
      assert Unowned(front, owned) + [] == Unowned(front, owned);
    } else {
      UnownedWithout(front, owned, i);
      assert Without(nodes, i) == Without(front, i) + [last];
      assert Unowned(nodes, owned) == Unowned(front, owned) + if last in owned then [] else [last];
      assert Unowned(front, owned) + [] == Unowned(front, owned);
    }
  }

  lemma {:induction false} UnownedAll(nodes: seq<nat>, owned: set<nat>)
    requires forall n :: n in nodes ==> n !in owned
    ensures Unowned(nodes, owned) == nodes
  {
    if nodes != [] {
      UnownedAll(nodes[..|nodes|-1], owned);
      assert nodes == nodes[..|nodes|-1] + [nodes[|nodes|-1]];
    }
  }

  // ----- what a step does to the top level

  /** The top-level commands and their names are the same. */
  ghost predicate SameTops(g: Tree<nat>, g': Tree<nat>)
    requires Closed(g) && Closed(g') && 0 in g && 0 in g'
  {
    && g'[0].children == g[0].children
    && forall i :: 0 <= i < |g[0].children| ==> g'[g[0].children[i]].name == g[g[0].children[i]].name
  }

  /** Configuration leaves the top-level commands and their names; adding and removing below the top level
      leave even what they answer to. */
  lemma {:induction false} BelowTheTop(s: TreeRuns.RegistryState, step: TreeRuns.Step)
    requires TreeRuns.Sound(s) && (step.Subcommand? || step.RemoveSubcommand? || step.Configure?)
    ensures TreeRuns.Sound(TreeRuns.Do(s, step)) && s.next <= TreeRuns.Do(s, step).next
    ensures SameTops(s.tree, TreeRuns.Do(s, step).tree)
    ensures forall i :: 0 <= i < |s.tree[0].children| ==>
              var n := s.tree[0].children[i];
              TreeRuns.Do(s, step).tree[n].aliases ==
              if step.Configure? && step.node == n then step.aliases else s.tree[n].aliases
  {
    TreeRuns.StepSound(s, step);
  }

  /** A new top-level command that nothing answered to. */
  lemma {:induction false} AppendUnshadowed(g: Tree<nat>, owned: set<nat>, n: nat, name: string)
    requires TreeShaped(g, 0) && SiblingsDistinct(g) && Unshadowed(g, owned) && n !in g && Unanswered(g, 0, name)
    ensures Closed(AddChild(g, 0, n, name))
    ensures Unshadowed(AddChild(g, 0, n, name), owned + {n})
    ensures Unshadowed(AddChild(g, 0, n, name), owned)
  {
    AddChildKeepsShape(g, 0, 0, n, name);
    var g', tops := AddChild(g, 0, n, name), g[0].children;
    assert forall i :: 0 <= i < |tops| ==>
      g'[0].children[i] == tops[i] && g'[tops[i]].Matches(name) == g[tops[i]].Matches(name);
    assert forall i, j :: 0 <= i < j < |tops| ==>
      g'[tops[i]].Matches(g'[tops[j]].name) == g[tops[i]].Matches(g[tops[j]].name);
  }

  lemma {:induction false} PairedAppend(handles: seq<Option<Handle>>, tops: seq<nat>, owned: set<nat>, handle: Handle)
    requires Paired(handles, tops, owned) && handle.node !in tops && handle.node !in owned
    ensures Paired(handles + [Some(handle)], tops + [handle.node], owned + {handle.node})
    ensures Paired(handles, tops + [handle.node], owned)
    ensures Paired(handles + [None], tops, owned)
  {
    var handles' := handles + [Some(handle)];
    assert Holds(handles', |handles|, handle.node);
    forall h: nat, n: nat | Holds(handles, h, n) ensures Holds(handles', h, n) && Holds(handles + [None], h, n) {
    }
    forall h: nat, n: nat | Holds(handles', h, n)
      ensures (h == |handles| && n == handle.node) || (Holds(handles, h, n) && n != handle.node)
    {
      assert h < |handles| ==> Holds(handles, h, n);
    }
    forall h: nat, n: nat | Holds(handles + [None], h, n) ensures Holds(handles, h, n) {
    }
  }

  lemma {:induction false} NamedAppend(handles: seq<Option<Handle>>, g: Tree<nat>, handle: Handle)
    requires Named(handles, g) && 0 in g && handle.node !in g
    ensures Named(handles, AddChild(g, 0, handle.node, handle.name))
    ensures Named(handles + [Some(handle)], AddChild(g, 0, handle.node, handle.name))
  {
    forall h: nat, n: nat | Holds(handles + [Some(handle)], h, n)
      ensures h == |handles| || Holds(handles, h, n)
    {
    }
  }

  lemma {:induction false} AccountedAppend(tops: seq<nat>, owned: set<nat>, dropped: seq<nat>, next: nat)
    requires Accounted(tops, owned, dropped, next) && next !in tops
    ensures Accounted(tops + [next], owned + {next}, dropped, next + 1)
    ensures Accounted(tops + [next], owned, dropped, next + 1)
  {
    assert next !in owned;
  }

  lemma {:induction false} FreshTop(g: Tree<nat>, n: nat, name: string)
    requires TreeShaped(g, 0) && SiblingsDistinct(g) && n !in g && Unanswered(g, 0, name)
    ensures Closed(AddChild(g, 0, n, name)) && n !in g[0].children
  {
    AddChildKeepsShape(g, 0, 0, n, name);
  }

  lemma {:induction false} CreateDirectGood(s: State, name: string)
    requires Good(s) && Answering(s, [name]).None?
    ensures Good(Do(s, Registry(TreeRuns.Command(name))))
  {
    var n := s.registry.next;
    TreeRuns.CreateSound(s.registry, name);
    FreshTop(s.registry.tree, n, name);
    PairedAppend(s.handles, s.Tops(), s.owned, Handle(name, n));
    NamedAppend(s.handles, s.registry.tree, Handle(name, n));
    AccountedAppend(s.Tops(), s.owned, s.dropped, n);
    UnownedSnoc(s.Tops(), n, s.owned);
  }

  lemma {:induction false} CreateOwnedGood(s: State, name: string)
    requires Good(s) && Answering(s, [name]).None? && name != ""
    ensures Good(Do(s, Registry(TreeRuns.Register(name))))
  {
    var n := s.registry.next;
    var s' := Do(s, Registry(TreeRuns.Register(name)));
    TreeRuns.CreateSound(s.registry, name);
    FreshTop(s.registry.tree, n, name);
    assert s'.Tops() == s.Tops() + [n];
    assert Paired(s'.handles, s'.Tops(), s'.owned) by {
      PairedAppend(s.handles, s.Tops(), s.owned, Handle(name, n));
    }
    assert Named(s'.handles, s'.registry.tree) by {
      NamedAppend(s.handles, s.registry.tree, Handle(name, n));
    }
    assert Accounted(s'.Tops(), s'.owned, s'.dropped, s'.registry.next) by {
      AccountedAppend(s.Tops(), s.owned, s.dropped, n);
    }
    assert Unowned(s'.Tops(), s'.owned) == s'.direct by {
      UnownedSnoc(s.Tops(), n, s.owned + {n});
      UnownedGrow(s.Tops(), s.owned, n);
      assert Unowned(s.Tops(), s.owned) + [] == Unowned(s.Tops(), s.owned);
    }
  }

  // ----- taking a top-level command away

  /** What unregistering a path of one token that some command answers to does to the tree. */
  lemma {:induction false} TakesAnswering(s: State, path: seq<string>) returns (i: nat)
    requires TreeRuns.Sound(s.registry) && Answering(s, path).Some?
    ensures i < |s.Tops()| && Answering(s, path) == Some(s.Tops()[i])
    ensures TreeRuns.Do(s.registry, TreeRuns.UnregisterPath(path)).tree == RemoveAt(s.registry.tree, 0, i)
  {
    var g := s.registry.tree;
    assert path == [path[0]];
    UnregisterAt(g, 0, path, 0);
    UnregisterKeepsShape(g, 0, path);
    i := FirstMatch(g, g[0].children, path[0]);
  }

  /** What any other unregistration leaves alone. */
  lemma {:induction false} LeavesTheTop(s: State, path: seq<string>)
    requires TreeRuns.Sound(s.registry) && Answering(s, path).None?
    ensures var s' := TreeRuns.Do(s.registry, TreeRuns.UnregisterPath(path));
            && TreeRuns.Sound(s') && SameTops(s.registry.tree, s'.tree)
            && s'.next == s.registry.next
            && forall n :: n in s.registry.tree ==> s'.tree[n].aliases == s.registry.tree[n].aliases
  {
    var g := s.registry.tree;
    TreeRuns.StepSound(s.registry, TreeRuns.UnregisterPath(path));
    var place := PlaceOf(g, 0, path);
    if |path| == 1 {
      assert path == [path[0]];
    } else if path != [] {
      ResolvedIsNotRoot(g, 0, 0, path[..|path|-1]);
    }
    assert place.At? ==> place.parent != 0;
  }

  lemma {:induction false} PairedWithout(handles: seq<Option<Handle>>, tops: seq<nat>, owned: set<nat>, i: nat, h: nat)
    requires Paired(handles, tops, owned) && NoRepeats(tops) && i < |tops| && Holds(handles, h, tops[i])
    ensures Paired(handles[h := None], Without(tops, i), owned)
  {
    var handles' := handles[h := None];
    WithoutMembers(tops, i);
    forall k: nat, n: nat | Holds(handles', k, n) ensures Holds(handles, k, n) && n != tops[i] {
      assert Holds(handles, k, n);
    }
    forall n: nat | n in Without(tops, i) && n in owned ensures exists k: nat :: Holds(handles', k, n) {
      var k: nat :| Holds(handles, k, n);
      assert Holds(handles', k, n);
    }
  }

  /** The handle's name leads to the very command the handle was made for. */
  ghost predicate LeadsHome(s: State, h: nat)
    requires TreeRuns.Sound(s.registry) && h < |s.handles|
  {
    s.handles[h].Some? ==> Answering(s, [s.handles[h].value.name]) == Some(s.handles[h].value.node)
  }

  /** Some command answers to a handle's name, if only its own. */
  lemma {:induction false} OwnAnswers(s: State, h: nat) returns (i: nat)
    requires Good(s) && h < |s.handles| && s.handles[h].Some?
    ensures i < |s.Tops()| && s.Tops()[i] == s.handles[h].value.node && s.Tops()[i] in s.owned
    ensures s.registry.tree[s.Tops()[i]].name == s.handles[h].value.name
    ensures Answering(s, [s.handles[h].value.name]).Some?
  {
    var own := s.handles[h].value;
    assert Holds(s.handles, h, own.node);
    i :| 0 <= i < |s.Tops()| && s.Tops()[i] == own.node;
    assert s.registry.tree[s.Tops()[i]].Matches(own.name);
  }

  /** In a good state no command is hidden from its handle exactly when every handle's name leads home. */
  lemma {:induction false} InChargeIff(s: State)
    requires Good(s)
    ensures InCharge(s) <==> forall h :: 0 <= h < |s.handles| ==> LeadsHome(s, h)
  {
    var g, tops := s.registry.tree, s.Tops();
    TopsDiffer(g);
    if InCharge(s) {
      forall h | 0 <= h < |s.handles| ensures LeadsHome(s, h) {
        if s.handles[h].Some? {
          var i := OwnAnswers(s, h);
          FirstMatchIs(g, tops, s.handles[h].value.name, i);
        }
      }
    }
    if forall h :: 0 <= h < |s.handles| ==> LeadsHome(s, h) {
      forall i, j | 0 <= i < j < |tops| && tops[j] in s.owned ensures !g[tops[i]].Matches(g[tops[j]].name) {
        var h: nat :| Holds(s.handles, h, tops[j]);
        assert LeadsHome(s, h);
        assert tops[FirstMatch(g, tops, g[tops[j]].name)] == tops[j];
      }
    }
  }

  /** The books after handle `h` has been reset and command `i`, its own, is gone. */
  lemma {:induction false} OwnRemovalGood(s: State, s': State, i: nat, h: nat)
    requires Good(s) && i < |s.Tops()| && Holds(s.handles, h, s.Tops()[i])
    requires s' == s.(registry := s'.registry, handles := s.handles[h := None], dropped := s.dropped + [s.Tops()[i]])
    requires TreeRuns.Sound(s'.registry) && s'.registry.next == s.registry.next
    requires s'.registry.tree == RemoveAt(s.registry.tree, 0, i)
    ensures Good(s')
  {
    TopsDiffer(s.registry.tree);
    assert Paired(s'.handles, s'.Tops(), s'.owned) by {
      PairedWithout(s.handles, s.Tops(), s.owned, i, h);
    }
    assert Named(s'.handles, s'.registry.tree) by {
      assert forall k: nat, n: nat :: Holds(s'.handles, k, n) ==> Holds(s.handles, k, n);
    }
    assert Accounted(s'.Tops(), s'.owned, s'.dropped, s'.registry.next) by {
      WithoutMembers(s.Tops(), i);
    }
    UnownedWithout(s.Tops(), s.owned, i);
  }

  /** Resetting a handle whose name leads home takes away the very command it was made for and no other. */
  lemma {:induction false} ResetTakesOwn(s: State, h: nat)
    requires Good(s) && h < |s.handles| && LeadsHome(s, h)
    ensures Good(ResetHandle(s, h))
    ensures s.handles[h].Some? ==>
              var own := s.handles[h].value.node;
              && (forall n :: n in ResetHandle(s, h).Tops() <==> n in s.Tops() && n != own)
              && own in s.Tops() && ResetHandle(s, h).dropped == s.dropped + [own]
  {
    if s.handles[h].Some? {
      var own := s.handles[h].value;
      var s' := ResetHandle(s, h);
      var i := TakesAnswering(s, [own.name]);
      assert Holds(s.handles, h, s.Tops()[i]);
      TopsDiffer(s.registry.tree);
      WithoutMembers(s.Tops(), i);
      ResetSound(s, h);
      assert s'.Tops() == Without(s.Tops(), i);
      OwnRemovalGood(s, s', i, h);
    }
  }

  /** Resetting any other active handle takes away another command, and leaves its own behind without a
      handle. */
  lemma {:induction false} ResetTakesAnother(s: State, h: nat) returns (other: nat)
    requires Good(s) && h < |s.handles| && !LeadsHome(s, h)
    ensures other != s.handles[h].value.node && other in s.Tops()
    ensures var s' := ResetHandle(s, h);
            && (forall n :: n in s'.Tops() <==> n in s.Tops() && n != other)
            && s'.dropped == s.dropped + [other]
            && s.handles[h].value.node in s'.Tops() && s.handles[h].value.node in s'.owned
            && (forall k: nat :: !Holds(s'.handles, k, s.handles[h].value.node))
  {
    var own := s.handles[h].value;
    var i := OwnAnswers(s, h);
    var j := TakesAnswering(s, [own.name]);
    other := s.Tops()[j];
    TopsDiffer(s.registry.tree);
    WithoutMembers(s.Tops(), j);
    assert ResetHandle(s, h).Tops() == Without(s.Tops(), j);
    assert Holds(s.handles, h, own.node);
    forall k: nat ensures !Holds(ResetHandle(s, h).handles, k, own.node) {
      assert Holds(ResetHandle(s, h).handles, k, own.node) ==> Holds(s.handles, k, own.node);
    }
  }

  lemma {:induction false} DirectRemovalGood(s: State, path: seq<string>)
    requires Good(s) && Answering(s, path).Some? && Answering(s, path).value !in s.owned
    ensures Good(Do(s, Registry(TreeRuns.UnregisterPath(path))))
  {
    var i := TakesAnswering(s, path);
    TreeRuns.StepSound(s.registry, TreeRuns.UnregisterPath(path));
    TopsDiffer(s.registry.tree);
    WithoutMembers(s.Tops(), i);
    UnownedWithout(s.Tops(), s.owned, i);
  }

  // ----- moving handles

  /** Moving the content of a handle to an inactive or a new one. */
  lemma {:induction false} MoveKeepsPairs(before: seq<Option<Handle>>, after: seq<Option<Handle>>, g: Tree<nat>,
                                          tops: seq<nat>, owned: set<nat>, from: nat, to: nat)
    requires Paired(before, tops, owned) && Named(before, g)
    requires from < |before| <= |after| && to < |after| && from != to
    requires after[from] == None && after[to] == before[from] && (to < |before| ==> before[to] == None)
    requires forall k :: 0 <= k < |after| && k != from && k != to ==> k < |before| && after[k] == before[k]
    ensures Paired(after, tops, owned) && Named(after, g)
  {
    forall h: nat, n: nat | Holds(after, h, n)
      ensures h != from && Holds(before, if h == to then from else h, n)
      ensures after[h] == before[if h == to then from else h]
    {
    }
    forall h: nat, n: nat | Holds(before, h, n) ensures Holds(after, if h == from then to else h, n) {
    }
  }

  lemma {:induction false} MoveGood(s: State, from: nat)
    requires Good(s) && from < |s.handles|
    ensures Good(Do(s, MoveConstruct(from)))
  {
    MoveKeepsPairs(s.handles, Do(s, MoveConstruct(from)).handles, s.registry.tree, s.Tops(), s.owned,
                   from, |s.handles|);
  }

  lemma {:induction false} MoveAssignGoodIff(s: State, to: nat, from: nat)
    requires Good(s) && to < |s.handles| && from < |s.handles| && to != from
    ensures Good(Do(s, MoveAssign(to, from))) <==> LeadsHome(s, to)
  {
    var s1, s2 := ResetHandle(s, to), Do(s, MoveAssign(to, from));
    if LeadsHome(s, to) {
      ResetTakesOwn(s, to);
      MoveKeepsPairs(s1.handles, s2.handles, s1.registry.tree, s1.Tops(), s1.owned, from, to);
    } else {
      var own := s.handles[to].value.node;
      var other := ResetTakesAnother(s, to);
      forall k: nat ensures !Holds(s2.handles, k, own) {
        assert Holds(s2.handles, k, own) ==> Holds(s1.handles, if k == to then from else k, own);
      }
      assert own in s2.Tops() && own in s2.owned;
    }
  }

  // ----- every run keeps the books exactly when handles take their own commands

  /** A step on which a handle's command goes with its handle: it is not unregistered directly, and a handle
      that is reset finds it under its name. */
  ghost predicate TakesOwn(s: State, step: Step)
    requires TreeRuns.Sound(s.registry)
  {
    match step
    case Registry(UnregisterPath(path)) => Answering(s, path).Some? ==> Answering(s, path).value !in s.owned
    case MoveAssign(to, from) => to < |s.handles| && from < |s.handles| && to != from ==> LeadsHome(s, to)
    case Reset(h) => h < |s.handles| ==> LeadsHome(s, h)
    case _ => true
  }

  lemma {:induction false} BelowTheTopGood(s: State, step: TreeRuns.Step)
    requires Good(s) && (step.Subcommand? || step.RemoveSubcommand? || step.Configure?)
    ensures Good(Do(s, Registry(step)))
  {
    BelowTheTop(s.registry, step);
  }

  lemma {:induction false} UnregisterGoodIff(s: State, path: seq<string>)
    requires Good(s)
    ensures Good(Do(s, Registry(TreeRuns.UnregisterPath(path)))) <==>
            TakesOwn(s, Registry(TreeRuns.UnregisterPath(path)))
  {
    var s' := Do(s, Registry(TreeRuns.UnregisterPath(path)));
    if Answering(s, path).None? {
      LeavesTheTop(s, path);
    } else if Answering(s, path).value !in s.owned {
      DirectRemovalGood(s, path);
    } else {
      var i := TakesAnswering(s, path);
      TopsDiffer(s.registry.tree);
      WithoutMembers(s.Tops(), i);
      var h: nat :| Holds(s.handles, h, s.Tops()[i]);
      assert Holds(s'.handles, h, s.Tops()[i]) && s.Tops()[i] !in s'.Tops();
    }
  }

  lemma {:induction false} ResetGoodIff(s: State, h: nat)
    requires Good(s) && h < |s.handles|
    ensures Good(ResetHandle(s, h)) <==> LeadsHome(s, h)
  {
    if LeadsHome(s, h) {
      ResetTakesOwn(s, h);
    } else {
      var other := ResetTakesAnother(s, h);
    }
  }

  lemma {:induction false} InactiveGood(s: State)
    requires Good(s)
    ensures Good(s.(handles := s.handles + [None]))
  {
    var handles' := s.handles + [None];
    forall h: nat, n: nat ensures Holds(handles', h, n) <==> Holds(s.handles, h, n) {
    }
  }

  /** A step keeps handles and commands in correspondence, and the books right, exactly when on it a
      handle's command goes with its handle. */
  lemma {:induction false} StepGoodIff(s: State, step: Step)
    requires Good(s)
    ensures Good(Do(s, step)) <==> TakesOwn(s, step)
  {
    match step {
      case Registry(Command(name)) => if Answering(s, [name]).None? { CreateDirectGood(s, name); }
      case Registry(Register(name)) =>
        if name != "" && Answering(s, [name]).None? {
          CreateOwnedGood(s, name);
        } else {
          InactiveGood(s);
        }
      case Registry(UnregisterPath(path)) => UnregisterGoodIff(s, path);
      case Registry(below) => BelowTheTopGood(s, below);
      case MoveConstruct(from) => if from < |s.handles| { MoveGood(s, from); }
      case MoveAssign(to, from) =>
        if to < |s.handles| && from < |s.handles| && to != from { MoveAssignGoodIff(s, to, from); }
      case Reset(h) => if h < |s.handles| { ResetGoodIff(s, h); }
    }
  }

  ghost predicate TakesOwnRun(s: State, steps: seq<Step>)
    requires TreeRuns.Sound(s.registry)
    decreases |steps|
  {
    steps != [] ==> TakesOwn(s, steps[0]) && TakesOwnRun(Do(s, steps[0]), steps[1..])
  }

  ghost predicate GoodThroughout(s: State, steps: seq<Step>)
    requires TreeRuns.Sound(s.registry)
    decreases |steps|
  {
    Good(s) && (steps != [] ==> GoodThroughout(Do(s, steps[0]), steps[1..]))
  }

  ghost function Start(): State {
    State(TreeRuns.Initial(), [], {}, [], [])
  }

  /** Throughout a run active handles and handle-registered commands correspond one to one, every command
      registered through a handle is either still there or was taken away, once, by its own handle, and the
      others are there in order: exactly when on every step a handle's command goes with its handle. */
  lemma {:induction false} HandlesOwnTheirCommands(s: State, steps: seq<Step>)
    requires Good(s)
    ensures Good(Start())
    ensures GoodThroughout(s, steps) <==> TakesOwnRun(s, steps)
    ensures TakesOwnRun(s, steps) ==> Good(After(s, steps))
    decreases |steps|
  {
    if steps != [] {
      StepGoodIff(s, steps[0]);
      if TakesOwn(s, steps[0]) {
        HandlesOwnTheirCommands(Do(s, steps[0]), steps[1..]);
      } else {
        assert !Good(Do(s, steps[0]));
      }
    }
  }

  // ----- every run keeps the handles in charge exactly when its steps are harmless

  /** A step that neither unregisters a handle's command directly nor gives a command in front of one its
      name as an alias; what the handles themselves do is always harmless. */
  ghost predicate Harmless(s: State, step: Step)
    requires TreeRuns.Sound(s.registry)
  {
    match step
    case Registry(UnregisterPath(path)) => Answering(s, path).Some? ==> Answering(s, path).value !in s.owned
    case Registry(Configure(node, aliases, _, _)) =>
      forall i, j :: 0 <= i < j < |s.Tops()| && s.Tops()[i] == node && s.Tops()[j] in s.owned ==>
        s.registry.tree[s.Tops()[j]].name !in aliases
    case _ => true
  }

  lemma {:induction false} BelowTheTopUnshadowedIff(s: State, step: TreeRuns.Step)
    requires InCharge(s) && (step.Subcommand? || step.RemoveSubcommand? || step.Configure?)
    ensures Unshadowed(Do(s, Registry(step)).registry.tree, s.owned) <==> Harmless(s, Registry(step))
  {
    var g, g', tops := s.registry.tree, Do(s, Registry(step)).registry.tree, s.Tops();
    BelowTheTop(s.registry, step);
    TopsDiffer(g);
    forall i, j | 0 <= i < j < |tops|
      ensures g'[tops[i]].Matches(g'[tops[j]].name) <==>
              if step.Configure? && step.node == tops[i] then g[tops[j]].name in step.aliases
              else g[tops[i]].Matches(g[tops[j]].name)
    {
      assert NamesDiffer(g, 0, i, j);
    }
  }

  lemma {:induction false} UnregisterUnshadowed(s: State, path: seq<string>)
    requires TreeRuns.Sound(s.registry) && Unshadowed(s.registry.tree, s.owned)
    ensures TreeRuns.Sound(TreeRuns.Do(s.registry, TreeRuns.UnregisterPath(path)))
    ensures Unshadowed(TreeRuns.Do(s.registry, TreeRuns.UnregisterPath(path)).tree, s.owned)
  {
    TreeRuns.StepSound(s.registry, TreeRuns.UnregisterPath(path));
    if Answering(s, path).None? {
      LeavesTheTop(s, path);
    } else {
      var i := TakesAnswering(s, path);
    }
  }

  /** A handle in charge takes its own command. */
  lemma {:induction false} HarmlessTakesOwn(s: State, step: Step)
    requires InCharge(s)
    ensures Harmless(s, step) ==> TakesOwn(s, step)
    ensures TakesOwn(s, step) && !step.Registry? ==> Harmless(s, step)
  {
    InChargeIff(s);
  }

  lemma {:induction false} StepUnshadowedIff(s: State, step: Step)
    requires InCharge(s) && TakesOwn(s, step)
    ensures Unshadowed(Do(s, step).registry.tree, Do(s, step).owned) <==> Harmless(s, step)
  {
    match step {
      case Registry(Command(name)) =>
        if Answering(s, [name]).None? { AppendUnshadowed(s.registry.tree, s.owned, s.registry.next, name); }
      case Registry(Register(name)) =>
        if name != "" && Answering(s, [name]).None? {
          AppendUnshadowed(s.registry.tree, s.owned, s.registry.next, name);
        }
      case Registry(UnregisterPath(path)) => UnregisterUnshadowed(s, path);
      case Registry(below) => BelowTheTopUnshadowedIff(s, below);
      case MoveConstruct(_) =>
      case MoveAssign(to, _) =>
        if to < |s.handles| && s.handles[to].Some? { UnregisterUnshadowed(s, [s.handles[to].value.name]); }
      case Reset(h) =>
        if h < |s.handles| && s.handles[h].Some? { UnregisterUnshadowed(s, [s.handles[h].value.name]); }
    }
  }

  /** Exactly the harmless steps leave every handle in charge of its own command. */
  lemma {:induction false} StepInChargeIff(s: State, step: Step)
    requires InCharge(s)
    ensures InCharge(Do(s, step)) <==> Harmless(s, step)
  {
    StepGoodIff(s, step);
    HarmlessTakesOwn(s, step);
    if TakesOwn(s, step) {
      StepUnshadowedIff(s, step);
    }
  }

  ghost predicate HarmlessRun(s: State, steps: seq<Step>)
    requires TreeRuns.Sound(s.registry)
    decreases |steps|
  {
    steps != [] ==> Harmless(s, steps[0]) && HarmlessRun(Do(s, steps[0]), steps[1..])
  }

  ghost predicate InChargeThroughout(s: State, steps: seq<Step>)
    requires TreeRuns.Sound(s.registry)
    decreases |steps|
  {
    InCharge(s) && (steps != [] ==> InChargeThroughout(Do(s, steps[0]), steps[1..]))
  }

  /** Throughout a run every handle is in charge of its own command exactly when all steps are harmless;
      then it takes away that command and no other in the end. */
  lemma {:induction false} HandlesStayInCharge(s: State, steps: seq<Step>)
    requires InCharge(s)
    ensures InCharge(Start())
    ensures InChargeThroughout(s, steps) <==> HarmlessRun(s, steps)
    ensures HarmlessRun(s, steps) ==> InCharge(After(s, steps)) && TakesOwnRun(s, steps)
    decreases |steps|
  {
    if steps != [] {
      StepInChargeIff(s, steps[0]);
      HarmlessTakesOwn(s, steps[0]);
      if Harmless(s, steps[0]) {
        HandlesStayInCharge(Do(s, steps[0]), steps[1..]);
      } else {
        assert !InCharge(Do(s, steps[0]));
      }
    }
  }

  // ----- both guards are needed

  lemma {:induction false} SomeHandleMisled(s: State, step: TreeRuns.Step) returns (h: nat)
    requires InCharge(s) && step.Configure? && !Harmless(s, Registry(step))
    ensures Good(Do(s, Registry(step))) && h < |s.handles| && !LeadsHome(Do(s, Registry(step)), h)
  {
    BelowTheTopGood(s, step);
    StepInChargeIff(s, Registry(step));
    InChargeIff(Do(s, Registry(step)));
    h :| 0 <= h < |s.handles| && !LeadsHome(Do(s, Registry(step)), h);
  }

  /** An alias that is not harmless misleads some handle: nothing has happened to the correspondence yet, but
      resetting that handle takes away another command and leaves its own behind without a handle. */
  lemma {:induction false} AliasMisleadsHandle(s: State, step: TreeRuns.Step) returns (h: nat, other: nat)
    requires InCharge(s) && step.Configure? && !Harmless(s, Registry(step))
    ensures Good(Do(s, Registry(step))) && h < |s.handles| && s.handles[h].Some?
    ensures other != s.handles[h].value.node && other in Do(s, Registry(step)).Tops()
    ensures var s' := Do(Do(s, Registry(step)), Reset(h));
            && other !in s'.Tops() && s.handles[h].value.node in s'.Tops()
            && s'.dropped == s.dropped + [other] && !Good(s')
  {
    h := SomeHandleMisled(s, step);
    other := ResetTakesAnother(Do(s, Registry(step)), h);
    ResetGoodIff(Do(s, Registry(step)), h);
  }

  lemma {:induction false} CommandAnswers(s: State, name: string)
    requires TreeRuns.Sound(s.registry)
    ensures var s' := Do(s, Registry(TreeRuns.Command(name)));
            && s'.owned == s.owned && s'.dropped == s.dropped && s'.handles == s.handles
            && Answering(s', [name]) ==
               if Answering(s, [name]).Some? then Answering(s, [name]) else Some(s.registry.next)
  {
    if Answering(s, [name]).None? {
      AddChildKeepsShape(s.registry.tree, 0, 0, s.registry.next, name);
      NewChildFound(s.registry.tree, 0, s.registry.next, name);
    }
  }

  lemma {:induction false} ResetTakesAnswering(s: State, h: nat)
    requires TreeRuns.Sound(s.registry) && h < |s.handles| && s.handles[h].Some?
    requires Answering(s, [s.handles[h].value.name]).Some?
    ensures var taken, s' := Answering(s, [s.handles[h].value.name]).value, Do(s, Reset(h));
            taken in s.Tops() && taken !in s'.Tops() && s'.dropped == s.dropped + [taken]
  {
    var i := TakesAnswering(s, [s.handles[h].value.name]);
    TopsDiffer(s.registry.tree);
    WithoutMembers(s.Tops(), i);
  }

  lemma {:induction false} OwnUnregistered(s: State, h: nat)
    requires InCharge(s) && h < |s.handles| && s.handles[h].Some?
    ensures var own := s.handles[h].value;
            var gone := Do(s, Registry(TreeRuns.UnregisterPath([own.name])));
            && own.node !in gone.Tops() && own.node < s.registry.next
            && gone.registry.next == s.registry.next && gone.owned == s.owned
            && gone.dropped == s.dropped && gone.handles == s.handles
  {
    InChargeIff(s);
    assert LeadsHome(s, h);
    var j := OwnAnswers(s, h);
    var i := TakesAnswering(s, [s.handles[h].value.name]);
    TopsDiffer(s.registry.tree);
    WithoutMembers(s.Tops(), i);
  }

  /** So does direct unregistration, in every state.  A handle remembers a name, not a command: once its command has
      been unregistered behind its back and the name used again, dropping the handle takes away whatever
      answers to the name by then, such as a command no handle ever registered. */
  lemma {:induction false} HandleMayTakeAnothersCommand(s: State, h: nat)
    returns (gone: State, reused: State, other: nat)
    requires InCharge(s) && h < |s.handles| && s.handles[h].Some?
    ensures gone == Do(s, Registry(TreeRuns.UnregisterPath([s.handles[h].value.name])))
    ensures reused == Do(gone, Registry(TreeRuns.Command(s.handles[h].value.name)))
    ensures other != s.handles[h].value.node
    ensures Answering(gone, [s.handles[h].value.name]).None? ==> other == s.registry.next && other !in reused.owned
    ensures other in reused.Tops() && other !in Do(reused, Reset(h)).Tops()
    ensures Do(reused, Reset(h)).dropped == s.dropped + [other]
  {
    var own := s.handles[h].value;
    gone := Do(s, Registry(TreeRuns.UnregisterPath([own.name])));
    reused := Do(gone, Registry(TreeRuns.Command(own.name)));
    OwnUnregistered(s, h);
    CommandAnswers(gone, own.name);
    ResetTakesAnswering(reused, h);
    other := Answering(reused, [own.name]).value;
  }
}
