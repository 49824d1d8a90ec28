/** Runs of the registry: what holds of the tree after any sequence of operations. */
module TreeRuns {
  import opened CommandParameters
  import opened CommandTree
  import opened CommandRegistry

  /** Nodes are numbered in order of creation; the root is node 0. */
  datatype RegistryState = RegistryState(tree: Tree<nat>, next: nat, notifications: seq<Notification>)

  datatype Step =
    | Command(name: string)                  // at the top level, find or create
    | Register(name: string)                 // at the top level, refused when empty or taken
    | Subcommand(parent: nat, name: string)  // on a node below the root, no notification
    | RemoveSubcommand(parent: nat, name: string)
    | Configure(node: nat, aliases: seq<string>, parameters: seq<CommandParameter>, executable: bool)
    | UnregisterPath(path: seq<string>)

  ghost predicate Sound(s: RegistryState) {
    && TreeShaped(s.tree, 0)
    && SiblingsDistinct(s.tree)
    && (forall n :: n in s.tree ==> n < s.next)
    && Balance(s.notifications) == |s.tree[0].children|
  }

  ghost function Initial(): RegistryState {
    RegistryState(map[0 := Leaf("")], 1, [])
  }

  ghost function CreateTop(s: RegistryState, name: string): RegistryState
    requires Sound(s)
  {
    if FindChild(s.tree, 0, name).Some? then s
    else RegistryState(AddChild(s.tree, 0, s.next, name), s.next + 1, s.notifications + [Registered([name])])
  }

  ghost function Do(s: RegistryState, step: Step): RegistryState
    requires Sound(s)
  {
    match step
    case Command(name) => CreateTop(s, name)
    case Register(name) => if name == "" then s else CreateTop(s, name)
    case Subcommand(parent, name) =>
      if parent == 0 || parent !in s.tree || FindChild(s.tree, parent, name).Some? then s
      else s.(tree := AddChild(s.tree, parent, s.next, name), next := s.next + 1)
    case RemoveSubcommand(parent, name) =>
      if parent == 0 || parent !in s.tree || FindChild(s.tree, parent, name).None? then s
      else s.(tree := RemoveAt(s.tree, parent, FirstMatch(s.tree, s.tree[parent].children, name)))
    case Configure(node, aliases, parameters, executable) =>
      if node !in s.tree then s else s.(tree := Reconfigure(s.tree, node, aliases, parameters, executable))
    case UnregisterPath(path) =>
      if PlaceOf(s.tree, 0, path).Nowhere? then s
      else s.(tree := Unregister(s.tree, 0, path), notifications := s.notifications + [Unregistered(path)])
  }

  lemma {:induction false} ConfigureKeepsShape(g: Tree<nat>, n: nat, aliases: seq<string>,
                                               parameters: seq<CommandParameter>, executable: bool)
    requires TreeShaped(g, 0) && SiblingsDistinct(g) && n in g
    ensures TreeShaped(Reconfigure(g, n, aliases, parameters, executable), 0)
    ensures SiblingsDistinct(Reconfigure(g, n, aliases, parameters, executable))
  {
    var g' := Reconfigure(g, n, aliases, parameters, executable);
    assert g'.Keys == g.Keys;
    assert forall m :: m in g ==> g'[m].children == g[m].children && g'[m].name == g[m].name;
    assert Closed(g');
    assert forall m, i: nat, c :: m in g ==> IsChild(g', m, i, c) == IsChild(g, m, i, c);
    forall m, i: nat, j: nat | m in g' ensures NamesDiffer(g', m, i, j) {
      assert NamesDiffer(g, m, i, j);
    }
  }

  lemma {:induction false} CreateSound(s: RegistryState, name: string)
    requires Sound(s)
    ensures Sound(CreateTop(s, name))
  {
    if FindChild(s.tree, 0, name).None? {
      AddChildKeepsShape(s.tree, 0, 0, s.next, name);
    }
  }

  lemma {:induction false} StepSound(s: RegistryState, step: Step)
    requires Sound(s)
    ensures Sound(Do(s, step))
  {
    match step {
      case Command(name) => CreateSound(s, name);
      case Register(name) => if name != "" { CreateSound(s, name); }
      case Subcommand(parent, name) =>
        if Do(s, step) != s {
          AddChildKeepsShape(s.tree, 0, parent, s.next, name);
        }
      case RemoveSubcommand(parent, name) =>
        if Do(s, step) != s {
          RemoveKeepsShape(s.tree, 0, parent, FirstMatch(s.tree, s.tree[parent].children, name));
        }
      case Configure(node, aliases, parameters, executable) =>
        if node in s.tree { ConfigureKeepsShape(s.tree, node, aliases, parameters, executable); }
      case UnregisterPath(path) =>
        UnregisterKeepsShape(s.tree, 0, path);
        if PlaceOf(s.tree, 0, path).At? {
          UnregisterAt(s.tree, 0, path, PlaceOf(s.tree, 0, path).parent);
        }
    }
  }

  ghost function After(s: RegistryState, steps: seq<Step>): (t: RegistryState)
    requires Sound(s)
    decreases |steps|
  {
    if steps == [] then s
    else
      StepSound(s, steps[0]);
      After(Do(s, steps[0]), steps[1..])
  }

  /** In every reachable tree sibling names are pairwise distinct at every level, although aliases may
      collide with anything; and the observers' count of top-level commands is right. */
  lemma {:induction false} EveryReachableTreeIsSound(s: RegistryState, steps: seq<Step>)
    requires Sound(s)
    ensures Sound(Initial())
    ensures Sound(After(s, steps))
    decreases |steps|
  {
    if steps != [] {
      StepSound(s, steps[0]);
      EveryReachableTreeIsSound(Do(s, steps[0]), steps[1..]);
    }
  }
}
