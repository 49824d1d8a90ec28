/**
 The mutable command tree: nodes that own their children, the registry that owns the root and notifies
 its observers, and the move-only handle that unregisters a command when it goes away.

 The objects are tied to the value model of `CommandTree` by a snapshot of all nodes ever created in a
 registry.  A destroyed node stays in the snapshot, where nothing leads to it any more.
 */
module CommandRegistry {
  import opened Prelude
  import opened CommandParameters
  import opened CommandTree

  datatype Notification = Registered(path: seq<string>) | Unregistered(path: seq<string>)

  /** Registered minus unregistered notifications, for paths of one token. */
  function Balance(notifications: seq<Notification>): int {
    if notifications == [] then 0
    else
      var last := notifications[|notifications|-1];
      Balance(notifications[..|notifications|-1]) +
      if |last.path| != 1 then 0 else if last.Registered? then 1 else -1
  }

  class CommandNode {
    const name: string
    var aliases: seq<string>
    var children: seq<CommandNode>
    var parameters: seq<CommandParameter>
    var executable: bool

    constructor (name: string)
      ensures this.name == name && aliases == [] && children == [] && parameters == [] && !executable
    {
      this.name := name;
      aliases, children, parameters, executable := [], [], [], false;
    }

    ghost function Info(): NodeInfo<CommandNode>
      reads this
    {
      NodeInfo(name, aliases, children, parameters, executable)
    }

    predicate Matches(value: string)
      reads this
    {
      value == name || value in aliases
    }

    method Alias(value: string)
      modifies this
      ensures Info() == old(Info()).(aliases := old(aliases) + [value])
    {
      aliases := aliases + [value];
    }

    /** Index of the first child that answers to the name. */
    method IndexOf(value: string) returns (i: nat)
      ensures i <= |children|
      ensures i < |children| ==> children[i].Matches(value)
      ensures forall j :: 0 <= j < i ==> !children[j].Matches(value)
    {
      i := 0;
      while i < |children| && !children[i].Matches(value)
        invariant i <= |children|
        invariant forall j :: 0 <= j < i ==> !children[j].Matches(value)
      {
        i := i + 1;
      }
    }

    /** Finds the first child that answers to the name, or creates one at the end. */
    method Command(name: string) returns (child: CommandNode)
      modifies this
      ensures (exists i :: 0 <= i < |old(children)| && old(children[i].Matches(name))) ==>
                Info() == old(Info())
                && exists i :: 0 <= i < |children| && child == children[i] && old(children[i].Matches(name))
                     && forall j :: 0 <= j < i ==> !old(children[j].Matches(name))
      ensures (forall i :: 0 <= i < |old(children)| ==> !old(children[i].Matches(name))) ==>
                fresh(child) && child.Info() == Leaf(name)
                && Info() == old(Info()).(children := old(children) + [child])
    {
      var i := IndexOf(name);
      if i < |children| {
        return children[i];
      }
      child := new CommandNode(name);
      children := children + [child];
    }

    /** Removes the first child that answers to the name. */
    method RemoveCommand(name: string) returns (removed: bool, ghost at: nat)
      modifies this
      ensures removed <==> exists i :: 0 <= i < |old(children)| && old(children[i].Matches(name))
      ensures removed ==>
                at < |old(children)| && old(children[at].Matches(name))
                && (forall j :: 0 <= j < at ==> !old(children[j].Matches(name)))
                && Info() == old(Info()).(children := Without(old(children), at))
      ensures !removed ==> Info() == old(Info())
    {
      var i := IndexOf(name);
      at := i;
      removed := i < |children|;
      if removed {
        children := children[..i] + children[i+1..];
      }
    }
  }

  class CommandRegistry {
    const root: CommandNode
    ghost var nodes: set<CommandNode>
    var notifications: seq<Notification>

    ghost function Tree(): Tree<CommandNode>
      reads `nodes, nodes
    {
      map n | n in nodes :: n.Info()
    }

    ghost predicate Shaped()
      reads `nodes, nodes
    {
      TreeShaped(Tree(), root) && SiblingsDistinct(Tree())
    }

    /** What every operation keeps. */
    ghost predicate Valid()
      reads this, nodes
    {
      Shaped() && Balance(notifications) == |root.children|
    }

    constructor ()
      ensures Valid() && fresh(nodes) && fresh(root)
      ensures Tree() == map[root := Leaf("")] && notifications == []
    {
      root := new CommandNode("");
      notifications := [];
      new;
      nodes := {root};
    }

    method FindChild(node: CommandNode, token: string) returns (child: CommandNode?)
      requires Shaped() && node in nodes
      ensures child == null <==> CommandTree.FindChild(Tree(), node, token).None?
      ensures child != null ==> CommandTree.FindChild(Tree(), node, token) == Some(child)
    {
      var i := node.IndexOf(token);
      assert Tree()[node].children == node.children;
      ChildrenMatch(this, node, token);
      FirstMatchIs(Tree(), node.children, token, i);
      child := if i < |node.children| then node.children[i] else null;
    }

    method Resolve(path: seq<string>) returns (node: CommandNode?)
      requires Shaped()
      ensures node == null <==> CommandTree.Resolve(Tree(), root, path).None?
      ensures node != null ==> CommandTree.Resolve(Tree(), root, path) == Some(node)
    {
      node := root;
      for i := 0 to |path|
        invariant node != null && node in nodes
        invariant CommandTree.Resolve(Tree(), root, path) == CommandTree.Resolve(Tree(), node, path[i..])
      {
        assert path[i..][0] == path[i] && path[i..][1..] == path[i+1..];
        node := FindChild(node, path[i]);
        if node == null {
          return;
        }
      }
    }

    /** Finds or creates a top-level command; observers hear of a creation only. */
    method Command(name: string) returns (result: CommandNode)
      requires Valid()
      modifies this, root
      ensures Valid() && result in nodes
      ensures old(CommandTree.FindChild(Tree(), root, name)).Some? ==>
                Tree() == old(Tree()) && notifications == old(notifications)
                && Some(result) == old(CommandTree.FindChild(Tree(), root, name))
      ensures old(CommandTree.FindChild(Tree(), root, name)).None? ==>
                fresh(result) && nodes == old(nodes) + {result}
                && Tree() == AddChild(old(Tree()), root, result, name)
                && notifications == old(notifications) + [Registered([name])]
    {
      var existing := FindChild(root, name);
      var existed := existing != null;
      if existed {
        result := existing;
      } else {
        result := CreateTopLevel(name);
      }
    }

    /** `root_.Command(name)` when no child answers to the name, and the notification. */
    method CreateTopLevel(name: string) returns (child: CommandNode)
      requires Valid() && Unanswered(Tree(), root, name)
      modifies this, root
      ensures Valid() && fresh(child) && nodes == old(nodes) + {child}
      ensures Tree() == AddChild(old(Tree()), root, child, name)
      ensures notifications == old(notifications) + [Registered([name])]
    {
      ghost var before := Tree();
      assert before[root].children == root.children;
      ChildrenMatch(this, root, name);
      child := root.Command(name);
      Grow(name, child, before);
    }

    /** The book-keeping after `root` has got a new child. */
    method Grow(name: string, child: CommandNode, ghost before: Tree<CommandNode>)
      requires TreeShaped(before, root) && SiblingsDistinct(before) && before.Keys == nodes
      requires child !in nodes && Unanswered(before, root, name) && child.Info() == Leaf(name)
      requires root.Info() == before[root].(children := before[root].children + [child])
      requires forall n :: n in nodes && n != root ==> n.Info() == before[n]
      requires Balance(notifications) == |before[root].children|
      modifies this
      ensures Valid() && nodes == old(nodes) + {child}
      ensures Tree() == AddChild(before, root, child, name)
      ensures notifications == old(notifications) + [Registered([name])]
    {
      AddChildKeepsShape(before, root, root, child, name);
      nodes := nodes + {child};
      notifications := notifications + [Registered([name])];
      assert Tree() == AddChild(before, root, child, name);
      assert notifications[..|notifications|-1] == old(notifications);
    }

    /** Registers a new top-level command.  The handle is inactive when the name is empty or taken. */
    method RegisterCommand(name: string) returns (handle: CommandRegistrationHandle)
      requires Valid()
      modifies this, root
      ensures Valid() && fresh(handle)
      ensures handle.registry == null <==> name == "" || old(CommandTree.FindChild(Tree(), root, name)).Some?
      ensures handle.registry == null ==>
                nodes == old(nodes) && Tree() == old(Tree()) && notifications == old(notifications)
      ensures handle.registry != null ==>
                handle.registry == this && handle.path == [name]
                && notifications == old(notifications) + [Registered([name])]
                && exists child :: child !in old(nodes) && nodes == old(nodes) + {child}
                     && Tree() == AddChild(old(Tree()), root, child, name)
    {
      if name == "" {
        handle := new CommandRegistrationHandle.Inactive();
        return;
      }
      var existing := FindChild(root, name);
      if existing != null {
        handle := new CommandRegistrationHandle.Inactive();
        return;
      }
      var child := CreateTopLevel(name);
      handle := new CommandRegistrationHandle(this, [name]);
    }

    /** Removes the command at a path; observers hear of it if there was one. */
    method UnregisterCommand(path: seq<string>) returns (removed: bool)
      requires Valid()
      modifies this, nodes
      ensures Valid() && nodes == old(nodes)
      ensures removed <==> path != [] && CommandTree.Resolve(old(Tree()), root, path).Some?
      ensures Tree() == Unregister(old(Tree()), root, path)
      ensures notifications == if removed then old(notifications) + [Unregistered(path)] else old(notifications)
    {
      removed := Detach(path);
      if removed {
        notifications := notifications + [Unregistered(path)];
        assert notifications[..|notifications|-1] == old(notifications);
      }
    }

    method Detach(path: seq<string>) returns (removed: bool)
      requires Shaped()
      modifies nodes
      ensures Shaped()
      ensures removed <==> path != [] && CommandTree.Resolve(old(Tree()), root, path).Some?
      ensures Tree() == Unregister(old(Tree()), root, path)
      ensures |root.children| == |old(root.children)| - if removed && |path| == 1 then 1 else 0
    {
      ghost var before := Tree();
      assert before[root].children == root.children;
      UnregisterKeepsShape(before, root, path);
      if path == [] {
        return false;
      }
      var node := Resolve(path[..|path|-1]);
      if node == null {
        return false;
      }
      UnregisterAt(before, root, path, node);
      removed := RemoveFrom(node, path[|path|-1]);
      assert Tree() == Unregister(before, root, path);
      assert Tree()[root].children == root.children;
    }

    /** The last step of an unregistration, before the observers are told. */
    method RemoveFrom(node: CommandNode, token: string) returns (removed: bool)
      requires Closed(Tree()) && node in nodes
      modifies node
      ensures var i := FirstMatch(old(Tree()), old(Tree())[node].children, token);
              && (removed <==> i < |old(Tree())[node].children|)
              && Tree() == if removed then RemoveAt(old(Tree()), node, i) else old(Tree())
    {
      ghost var before := Tree();
      ghost var at;
      assert before[node].children == node.children;
      assert forall i :: 0 <= i < |node.children| ==>
        before[node.children[i]].Matches(token) == node.children[i].Matches(token);
      removed, at := node.RemoveCommand(token);
      if removed {
        FirstMatchIs(before, before[node].children, token, at);
        assert Tree() == RemoveAt(before, node, at);
      } else {
        FirstMatchIs(before, before[node].children, token, |before[node].children|);
        assert Tree() == before;
      }
    }
  }

  lemma {:induction false} ChildrenMatch(registry: CommandRegistry, node: CommandNode, token: string)
    requires registry.Shaped() && node in registry.nodes
    ensures forall i :: 0 <= i < |node.children| ==>
              node.children[i] in registry.Tree()
              && registry.Tree()[node.children[i]].Matches(token) == node.children[i].Matches(token)
  {
    assert registry.Tree()[node].children == node.children;
  }

  /** What observers hear when a path is unregistered: nothing unless it led to a command. */
  ghost function NoticeOf(g: Tree<CommandNode>, root: CommandNode, path: seq<string>): seq<Notification>
    requires Closed(g) && root in g
  {
    if path != [] && CommandTree.Resolve(g, root, path).Some? then [Unregistered(path)] else []
  }

  class CommandRegistrationHandle {
    var registry: CommandRegistry?
    var path: seq<string>

    constructor Inactive()
      ensures registry == null && path == []
    {
      registry, path := null, [];
    }

    constructor (registry: CommandRegistry, path: seq<string>)
      ensures this.registry == registry && this.path == path
    {
      this.registry, this.path := registry, path;
    }

    /** Moving leaves the other handle inactive. */
    constructor Moved(other: CommandRegistrationHandle)
      modifies other
      ensures registry == old(other.registry) && path == old(other.path)
      ensures other.registry == null && other.path == []
    {
      registry, path := other.registry, other.path;
      new;
      other.path := [];
      other.registry := null;
    }

    /** Also what the destructor does. */
    method Reset()
      requires registry != null ==> registry.Valid()
      modifies this, registry, if registry != null then registry.nodes else {}
      ensures registry == null
      ensures old(registry) == null ==> path == old(path)
      ensures old(registry) != null ==>
                path == [] && old(registry).Valid() && old(registry).nodes == old(registry.nodes)
                && old(registry).Tree() == Unregister(old(registry.Tree()), old(registry).root, old(path))
      ensures old(registry) != null ==>
                old(registry).notifications == old(registry.notifications) +
                  NoticeOf(old(registry.Tree()), old(registry).root, old(path))
    {
      if registry != null {
        var r := registry;
        var removed := r.UnregisterCommand(path);
        registry := null;
        path := [];
      }
    }

    /** The own command is unregistered, the other's is taken over; assigning a handle to itself does
        nothing. */
    method MoveAssign(other: CommandRegistrationHandle)
      requires registry != null ==> registry.Valid()
      modifies this, other, registry, if registry != null then registry.nodes else {}
      ensures this == other ==> registry == old(registry) && path == old(path)
      ensures this != other ==>
                registry == old(other.registry) && path == old(other.path)
                && other.registry == null && other.path == []
      ensures this != other && old(registry) != null ==>
                old(registry).Valid() && old(registry).nodes == old(registry.nodes)
                && old(registry).Tree() == Unregister(old(registry.Tree()), old(registry).root, old(path))
                && old(registry).notifications == old(registry.notifications) +
                     NoticeOf(old(registry.Tree()), old(registry).root, old(path))
      ensures this == other && old(registry) != null ==>
                old(registry).Valid() && old(registry).Tree() == old(registry.Tree())
                && old(registry).notifications == old(registry.notifications)
    {
      if this != other {
        Reset();
        registry := other.registry;
        path := other.path;
        other.path := [];
        other.registry := null;
      }
    }
  }
}
