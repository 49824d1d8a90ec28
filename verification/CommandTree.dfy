/**
 The command tree as a value: a snapshot that maps every node to its name, aliases, children and
 configuration.  Lookup is first-match over names and aliases, which may overlap.  `N` is whatever
 identifies a node.
 */
module CommandTree {
  import opened Prelude
  import opened CommandParameters

  datatype NodeInfo<N> = NodeInfo(
    name: string,
    aliases: seq<string>,
    children: seq<N>,
    parameters: seq<CommandParameter>,
    executable: bool)
  {
    predicate Matches(token: string) {
      token == name || token in aliases
    }
  }

  type Tree<N> = map<N, NodeInfo<N>>

  ghost predicate Closed<N>(g: Tree<N>) {
    forall n, i :: n in g && 0 <= i < |g[n].children| ==> g[n].children[i] in g
  }

  ghost predicate IsChild<N>(g: Tree<N>, n: N, i: nat, c: N) {
    n in g && i < |g[n].children| && g[n].children[i] == c
  }

  /** Every node is the child of at most one node, at one place, and the root of none. */
  ghost predicate TreeShaped<N>(g: Tree<N>, root: N) {
    && root in g
    && Closed(g)
    && (forall n, i: nat {:trigger IsChild(g, n, i, root)} :: n in g ==> !IsChild(g, n, i, root))
    && (forall m, i: nat, n, j: nat, c {:trigger IsChild(g, m, i, c), IsChild(g, n, j, c)} ::
          m in g && n in g && c in g && IsChild(g, m, i, c) && IsChild(g, n, j, c) ==> m == n && i == j)
  }

  ghost predicate NamesDiffer<N>(g: Tree<N>, n: N, i: nat, j: nat)
    requires Closed(g)
  {
    n in g && i < j < |g[n].children| ==> g[g[n].children[i]].name != g[g[n].children[j]].name
  }

  /** Canonical names of siblings are pairwise distinct. */
  ghost predicate SiblingsDistinct<N>(g: Tree<N>)
    requires Closed(g)
  {
    forall n, i: nat, j: nat {:trigger NamesDiffer(g, n, i, j)} :: n in g ==> NamesDiffer(g, n, i, j)
  }

  // ----- lookup

  /** Index of the first of the nodes that answers to the token. */
  ghost function FirstMatch<N>(g: Tree<N>, nodes: seq<N>, token: string): (i: nat)
    requires forall k :: 0 <= k < |nodes| ==> nodes[k] in g
    ensures i <= |nodes|
    ensures i < |nodes| ==> g[nodes[i]].Matches(token)
    ensures forall j :: 0 <= j < i ==> !g[nodes[j]].Matches(token)
  {
    if nodes == [] || g[nodes[0]].Matches(token) then 0
    else
      var later := FirstMatch(g, nodes[1..], token);
      assert forall j :: 0 < j < 1 + later ==> nodes[j] == nodes[1..][j-1];
      1 + later
  }

  lemma {:induction false} FirstMatchIs<N>(g: Tree<N>, nodes: seq<N>, token: string, i: nat)
    requires forall k :: 0 <= k < |nodes| ==> nodes[k] in g
    requires i <= |nodes| && (i < |nodes| ==> g[nodes[i]].Matches(token))
    requires forall j :: 0 <= j < i ==> !g[nodes[j]].Matches(token)
    ensures FirstMatch(g, nodes, token) == i
  {
  }

  ghost function FindChild<N>(g: Tree<N>, n: N, token: string): Option<N>
    requires Closed(g) && n in g
    ensures FindChild(g, n, token).Some? ==> FindChild(g, n, token).value in g
  {
    var i := FirstMatch(g, g[n].children, token);
    if i < |g[n].children| then Some(g[n].children[i]) else None
  }

  /** A token leads to the first child that has it as its name or as one of its aliases. */
  lemma {:induction false} FindChildIff<N>(g: Tree<N>, n: N, token: string, c: N)
    requires Closed(g) && n in g
    ensures FindChild(g, n, token) == Some(c) <==>
            exists i ::
              && 0 <= i < |g[n].children| && g[n].children[i] == c
              && (g[c].name == token || token in g[c].aliases)
              && forall j :: 0 <= j < i ==>
                   g[g[n].children[j]].name != token && token !in g[g[n].children[j]].aliases
  {
    var i := FirstMatch(g, g[n].children, token);
    if i < |g[n].children| && g[n].children[i] == c {
      assert g[c].Matches(token);
    }
    if i' :| && 0 <= i' < |g[n].children| && g[n].children[i'] == c
             && (g[c].name == token || token in g[c].aliases)
             && forall j :: 0 <= j < i' ==>
                  g[g[n].children[j]].name != token && token !in g[g[n].children[j]].aliases
    {
      assert g[g[n].children[i']].Matches(token);
      assert i == i';
    }
  }

  ghost function Resolve<N>(g: Tree<N>, n: N, path: seq<string>): Option<N>
    requires Closed(g) && n in g
    ensures Resolve(g, n, path).Some? ==> Resolve(g, n, path).value in g
    decreases |path|
  {
    if path == [] then Some(n)
    else
      var child := FindChild(g, n, path[0]);
      if child.None? then None else Resolve(g, child.value, path[1..])
  }

  lemma {:induction false} ResolveConcat<N>(g: Tree<N>, n: N, front: seq<string>, back: seq<string>)
    requires Closed(g) && n in g
    ensures Resolve(g, n, front + back) ==
            if Resolve(g, n, front).None? then None else Resolve(g, Resolve(g, n, front).value, back)
    decreases |front|
  {
    if front == [] {
      assert front + back == back;
    } else {
      assert (front + back)[1..] == front[1..] + back;
      var child := FindChild(g, n, front[0]);
      if child.Some? {
        ResolveConcat(g, child.value, front[1..], back);
      }
    }
  }

  lemma {:induction false} ResolveLast<N>(g: Tree<N>, n: N, path: seq<string>)
    requires Closed(g) && n in g && path != []
    ensures var parent := Resolve(g, n, path[..|path|-1]);
            Resolve(g, n, path) == if parent.None? then None else FindChild(g, parent.value, path[|path|-1])
  {
    var front, last := path[..|path|-1], path[|path|-1];
    assert path == front + [last];
    ResolveConcat(g, n, front, [last]);
    if Resolve(g, n, front).Some? {
      var parent := Resolve(g, n, front).value;
      var child := FindChild(g, parent, last);
      assert [last][0] == last && [last][1..] == [];
      if child.Some? {
        assert Resolve(g, child.value, [last][1..]) == child;
      }
    }
  }

  // ----- growing

  function Leaf<N>(name: string): NodeInfo<N> {
    NodeInfo(name, [], [], [], false)
  }

  /** `Command(name)` on node `parent` when no child answers to the name: a new last child. */
  function AddChild<N>(g: Tree<N>, parent: N, child: N, name: string): Tree<N>
    requires parent in g && child !in g
  {
    g[parent := g[parent].(children := g[parent].children + [child])][child := Leaf(name)]
  }

  ghost predicate Unanswered<N>(g: Tree<N>, n: N, name: string)
    requires Closed(g) && n in g
  {
    FindChild(g, n, name).None?
  }

  lemma {:induction false} AddChildKeepsShape<N>(g: Tree<N>, root: N, parent: N, child: N, name: string)
    requires TreeShaped(g, root) && SiblingsDistinct(g) && parent in g && child !in g && Unanswered(g, parent, name)
    ensures TreeShaped(AddChild(g, parent, child, name), root) && SiblingsDistinct(AddChild(g, parent, child, name))
  {
    var g' := AddChild(g, parent, child, name);
    forall n, i | n in g' && 0 <= i < |g'[n].children| ensures g'[n].children[i] in g' {
      if n in g && i < |g[n].children| {
        assert g'[n].children[i] == g[n].children[i];
      }
    }
    forall n, i: nat, c | n in g' && c in g' && IsChild(g', n, i, c)
      ensures IsChild(g, n, i, c) || (n == parent && i == |g[parent].children| && c == child)
      ensures IsChild(g, n, i, c) ==> c in g && c != child
    {
    }
    forall n, i: nat | n in g' ensures !IsChild(g', n, i, root) {
      assert n in g ==> !IsChild(g, n, i, root);
    }
    forall m, i: nat, n, j: nat, c | m in g' && n in g' && c in g' && IsChild(g', m, i, c) && IsChild(g', n, j, c)
      ensures m == n && i == j
    {
      assert IsChild(g, m, i, c) <==> IsChild(g, n, j, c);
    }
    forall n, i: nat, j: nat | n in g' ensures NamesDiffer(g', n, i, j) {
      if i < j < |g'[n].children| {
        assert n in g && i < |g[n].children|;
        assert NamesDiffer(g, n, i, j);
        assert g'[n].children[i] == g[n].children[i];
        if j < |g[n].children| {
          assert g'[n].children[j] == g[n].children[j];
        } else {
          assert !g[g[n].children[i]].Matches(name);
        }
      }
    }
  }

  /** A node that resolved before resolves to the same node after a child has been added anywhere. */
  lemma {:induction false} AddChildKeepsPaths<N>(g: Tree<N>, parent: N, child: N, name: string, n: N, path: seq<string>)
    requires Closed(g) && parent in g && child !in g && n in g && Closed(AddChild(g, parent, child, name))
    ensures Resolve(g, n, path).Some? ==> Resolve(AddChild(g, parent, child, name), n, path) == Resolve(g, n, path)
    decreases |path|
  {
    if path != [] && FindChild(g, n, path[0]).Some? {
      var g' := AddChild(g, parent, child, name);
      var i := FirstMatch(g, g[n].children, path[0]);
      assert forall k :: 0 <= k < |g[n].children| ==> g'[n].children[k] == g[n].children[k] && g[n].children[k] in g;
      FirstMatchIs(g', g'[n].children, path[0], i);
      AddChildKeepsPaths(g, parent, child, name, FindChild(g, n, path[0]).value, path[1..]);
    }
  }

  /** Settings and aliases; aliases may well collide with names or aliases of siblings. */
  function Reconfigure<N>(g: Tree<N>, n: N, aliases: seq<string>, parameters: seq<CommandParameter>,
                          executable: bool): Tree<N>
    requires n in g
  {
    g[n := g[n].(aliases := aliases, parameters := parameters, executable := executable)]
  }

  // ----- removing

  function RemoveAt<N>(g: Tree<N>, parent: N, i: nat): Tree<N>
    requires parent in g && i < |g[parent].children|
  {
    g[parent := g[parent].(children := Without(g[parent].children, i))]
  }

  /** Where a child of `n` stood before child `i` of `parent` was taken out. */
  ghost function Former<N>(parent: N, i: nat, n: N, k: nat): nat {
    if n == parent && i <= k then k + 1 else k
  }

  lemma {:induction false} RemoveKeepsTree<N>(g: Tree<N>, root: N, parent: N, i: nat)
    requires TreeShaped(g, root) && parent in g && i < |g[parent].children|
    ensures TreeShaped(RemoveAt(g, parent, i), root)
  {
    var g' := RemoveAt(g, parent, i);
    forall n, k: nat, c | n in g' && IsChild(g', n, k, c) ensures IsChild(g, n, Former(parent, i, n, k), c) && c in g {
    }
    forall n, k: nat | n in g' ensures !IsChild(g', n, k, root) {
      assert !IsChild(g, n, Former(parent, i, n, k), root);
    }
    assert Closed(g') by {
      forall n, k | n in g' && 0 <= k < |g'[n].children| ensures g'[n].children[k] in g' {
        assert IsChild(g', n, k, g'[n].children[k]);
      }
    }
    forall m, a: nat, n, b: nat, c | m in g' && n in g' && c in g' && IsChild(g', m, a, c) && IsChild(g', n, b, c)
      ensures m == n && a == b
    {
      assert IsChild(g, m, Former(parent, i, m, a), c) && IsChild(g, n, Former(parent, i, n, b), c);
    }
  }

  lemma {:induction false} RemoveKeepsNames<N>(g: Tree<N>, parent: N, i: nat)
    requires Closed(g) && SiblingsDistinct(g) && parent in g && i < |g[parent].children|
    requires Closed(RemoveAt(g, parent, i))
    ensures SiblingsDistinct(RemoveAt(g, parent, i))
  {
    var g' := RemoveAt(g, parent, i);
    forall n, a: nat, b: nat | n in g' ensures NamesDiffer(g', n, a, b) {
      if a < b < |g'[n].children| {
        assert NamesDiffer(g, n, Former(parent, i, n, a), Former(parent, i, n, b));
      }
    }
  }

  lemma {:induction false} RemoveKeepsShape<N>(g: Tree<N>, root: N, parent: N, i: nat)
    requires TreeShaped(g, root) && SiblingsDistinct(g) && parent in g && i < |g[parent].children|
    ensures TreeShaped(RemoveAt(g, parent, i), root) && SiblingsDistinct(RemoveAt(g, parent, i))
  {
    RemoveKeepsTree(g, root, parent, i);
    RemoveKeepsNames(g, parent, i);
  }

  /** The walk of the path from `n` steps onto `target`. */
  ghost predicate Visits<N>(g: Tree<N>, n: N, path: seq<string>, target: N)
    requires Closed(g) && n in g
    decreases |path|
  {
    path != [] &&
    var child := FindChild(g, n, path[0]);
    child.Some? && (child.value == target || Visits(g, child.value, path[1..], target))
  }

  /** A lookup in a list that has lost an element finds what it found before, unless that was lost; the
      nodes may have changed in anything but what they answer to. */
  lemma {:induction false} FirstMatchWithout<N>(g: Tree<N>, g': Tree<N>, nodes: seq<N>, i: nat, token: string)
    requires i < |nodes| && forall k :: 0 <= k < |nodes| ==> nodes[k] in g && nodes[k] in g'
    requires forall k :: 0 <= k < |nodes| ==> g'[nodes[k]].Matches(token) == g[nodes[k]].Matches(token)
    requires FirstMatch(g, nodes, token) != i
    ensures var f := FirstMatch(g, nodes, token);
            FirstMatch(g', Without(nodes, i), token) == if i < f then f - 1 else f
  {
    var f := FirstMatch(g, nodes, token);
    FirstMatchIs(g', Without(nodes, i), token, if i < f then f - 1 else f);
  }

  /** A lookup among the remaining siblings finds what it found before, unless that was removed. */
  lemma {:induction false} RemoveKeepsChild<N>(g: Tree<N>, parent: N, i: nat, n: N, token: string)
    requires Closed(g) && parent in g && i < |g[parent].children| && n in g && Closed(RemoveAt(g, parent, i))
    requires n == parent ==> FirstMatch(g, g[parent].children, token) != i
    ensures FindChild(RemoveAt(g, parent, i), n, token) == FindChild(g, n, token)
  {
    var g' := RemoveAt(g, parent, i);
    var before := g[n].children;
    assert forall k :: 0 <= k < |before| ==>
      before[k] in g && g'[before[k]].Matches(token) == g[before[k]].Matches(token);
    if n == parent {
      FirstMatchWithout(g, g', before, i, token);
    } else {
      FirstMatchIs(g', before, token, FirstMatch(g, before, token));
    }
  }

  /** A path that does not step onto the removed node resolves as before, or fails as before. */
  lemma {:induction false} RemoveKeepsPath<N>(g: Tree<N>, root: N, parent: N, i: nat, n: N, path: seq<string>)
    requires TreeShaped(g, root) && parent in g && i < |g[parent].children| && n in g
    requires Closed(RemoveAt(g, parent, i))
    requires !Visits(g, n, path, g[parent].children[i])
    ensures Resolve(RemoveAt(g, parent, i), n, path) == Resolve(g, n, path)
    decreases |path|
  {
    if path != [] {
      if n == parent {
        assert FirstMatch(g, g[parent].children, path[0]) != i;
      }
      RemoveKeepsChild(g, parent, i, n, path[0]);
      var child := FindChild(g, n, path[0]);
      if child.Some? {
        RemoveKeepsPath(g, root, parent, i, child.value, path[1..]);
      }
    }
  }

  /** Below a node, along some path. */
  ghost predicate Below<N>(g: Tree<N>, top: N, n: N, depth: nat)
    requires Closed(g)
    decreases depth
  {
    if depth == 0 then n == top
    else exists m, i :: m in g && 0 <= i < |g[m].children| && g[m].children[i] == n && Below(g, top, m, depth - 1)
  }

  lemma {:induction false} RemovedIsNoChild<N>(g: Tree<N>, root: N, parent: N, i: nat, n: N, k: nat)
    requires TreeShaped(g, root) && parent in g && i < |g[parent].children|
    requires n in g && k < |RemoveAt(g, parent, i)[n].children|
    ensures RemoveAt(g, parent, i)[n].children[k] != g[parent].children[i]
  {
    var c := RemoveAt(g, parent, i)[n].children[k];
    assert IsChild(g, n, Former(parent, i, n, k), c) && IsChild(g, parent, i, g[parent].children[i]);
  }

  /** Stepping onto a node after the removal is stepping onto it from its one parent. */
  lemma {:induction false} StepFromParent<N>(g: Tree<N>, root: N, parent: N, i: nat, n: N, m: N, j: nat, above: N,
                                             token: string)
    requires TreeShaped(g, root) && parent in g && i < |g[parent].children| && Closed(RemoveAt(g, parent, i))
    requires IsChild(g, m, j, n) && above in g && m in g
    requires FindChild(RemoveAt(g, parent, i), above, token) == Some(n)
    ensures above == m && n != g[parent].children[i]
  {
    var g' := RemoveAt(g, parent, i);
    var k := FirstMatch(g', g'[above].children, token);
    RemovedIsNoChild(g, root, parent, i, above, k);
    assert IsChild(g, above, Former(parent, i, above, k), n);
  }

  /** Nothing at or below the removed node can be reached any more, by any path. */
  lemma {:induction false} RemovedUnreachable<N>(g: Tree<N>, root: N, parent: N, i: nat, n: N, depth: nat,
                                                 path: seq<string>)
    requires TreeShaped(g, root) && parent in g && i < |g[parent].children|
    requires TreeShaped(RemoveAt(g, parent, i), root)
    requires Below(g, g[parent].children[i], n, depth)
    ensures Resolve(RemoveAt(g, parent, i), root, path) != Some(n)
    decreases depth
  {
    var g' := RemoveAt(g, parent, i);
    var removed := g[parent].children[i];
    var m, j := parent, i;
    if depth != 0 {
      m, j :| m in g && 0 <= j < |g[m].children| && g[m].children[j] == n && Below(g, removed, m, depth - 1);
    }
    assert IsChild(g, m, j, n) && !IsChild(g, m, j, root);
    if path != [] {
      var front, last := path[..|path|-1], path[|path|-1];
      ResolveLast(g', root, path);
      if depth != 0 {
        RemovedUnreachable(g, root, parent, i, m, depth - 1, front);
      }
      if Resolve(g', root, front).Some? && FindChild(g', Resolve(g', root, front).value, last) == Some(n) {
        StepFromParent(g, root, parent, i, n, m, j, Resolve(g', root, front).value, last);
      }
    }
  }

  // ----- unregistering by path

  /** Where `UnregisterCommand(path)` removes a child: at the node the path without its last token leads
      to, the first child that answers to the last token. */
  datatype Place<N> = Nowhere | At(parent: N, index: nat)

  ghost function PlaceOf<N>(g: Tree<N>, root: N, path: seq<string>): (place: Place<N>)
    requires Closed(g) && root in g
    ensures place.At? ==> place.parent in g && place.index < |g[place.parent].children|
  {
    if path == [] then Nowhere
    else
      var parent := Resolve(g, root, path[..|path|-1]);
      if parent.None? then Nowhere
      else
        var i := FirstMatch(g, g[parent.value].children, path[|path|-1]);
        if i == |g[parent.value].children| then Nowhere else At(parent.value, i)
  }

  ghost function Unregister<N>(g: Tree<N>, root: N, path: seq<string>): Tree<N>
    requires Closed(g) && root in g
  {
    var place := PlaceOf(g, root, path);
    if place.Nowhere? then g else RemoveAt(g, place.parent, place.index)
  }

  lemma {:induction false} UnregisterKeepsShape<N>(g: Tree<N>, root: N, path: seq<string>)
    requires TreeShaped(g, root) && SiblingsDistinct(g)
    ensures PlaceOf(g, root, path).At? <==> path != [] && Resolve(g, root, path).Some?
    ensures TreeShaped(Unregister(g, root, path), root) && SiblingsDistinct(Unregister(g, root, path))
  {
    if path != [] {
      ResolveLast(g, root, path);
    }
    var place := PlaceOf(g, root, path);
    if place.At? {
      RemoveKeepsShape(g, root, place.parent, place.index);
    }
  }

  /** Only the empty path leads to the root. */
  lemma {:induction false} ResolvedIsNotRoot<N>(g: Tree<N>, root: N, n: N, path: seq<string>)
    requires TreeShaped(g, root) && n in g
    ensures path != [] ==> Resolve(g, n, path) != Some(root)
  {
    if path != [] {
      ResolveLast(g, n, path);
      var parent := Resolve(g, n, path[..|path|-1]);
      if parent.Some? {
        var i := FirstMatch(g, g[parent.value].children, path[|path|-1]);
        assert !IsChild(g, parent.value, i, root);
      }
    }
  }

  /** The same, from the node the walk arrived at. */
  lemma {:induction false} UnregisterAt<N>(g: Tree<N>, root: N, path: seq<string>, node: N)
    requires TreeShaped(g, root) && SiblingsDistinct(g)
    requires path != [] && Resolve(g, root, path[..|path|-1]) == Some(node)
    ensures var i := FirstMatch(g, g[node].children, path[|path|-1]);
            var removed := i < |g[node].children|;
            && (removed <==> Resolve(g, root, path).Some?)
            && Unregister(g, root, path) == (if removed then RemoveAt(g, node, i) else g)
            && root in Unregister(g, root, path)
            && |Unregister(g, root, path)[root].children| ==
               |g[root].children| - if removed && |path| == 1 then 1 else 0
  {
    UnregisterKeepsShape(g, root, path);
    var front := path[..|path|-1];
    ResolvedIsNotRoot(g, root, root, front);
  }

  /** Unregistering succeeds exactly on a non-empty path that resolves.  It removes the very node the path
      resolved to; nothing at or below that node is reachable afterwards; every path that does not step
      onto it resolves as before, however names and aliases overlap; and the tree keeps its shape. */
  lemma {:induction false} UnregisterRemovesResolved<N>(g: Tree<N>, root: N, path: seq<string>)
    requires TreeShaped(g, root) && SiblingsDistinct(g)
    ensures PlaceOf(g, root, path).At? <==> path != [] && Resolve(g, root, path).Some?
    ensures TreeShaped(Unregister(g, root, path), root) && SiblingsDistinct(Unregister(g, root, path))
    ensures path != [] && Resolve(g, root, path).Some? ==>
              var removed := Resolve(g, root, path).value;
              && (forall q :: !Visits(g, root, q, removed) ==>
                    Resolve(Unregister(g, root, path), root, q) == Resolve(g, root, q))
              && (forall n, depth: nat, q :: n in g && Below(g, removed, n, depth) ==>
                    Resolve(Unregister(g, root, path), root, q) != Some(n))
  {
    UnregisterKeepsShape(g, root, path);
    var place := PlaceOf(g, root, path);
    if place.At? {
      ResolveLast(g, root, path);
      var removed := Resolve(g, root, path).value;
      assert removed == g[place.parent].children[place.index];
      forall q | !Visits(g, root, q, removed)
        ensures Resolve(Unregister(g, root, path), root, q) == Resolve(g, root, q)
      {
        RemoveKeepsPath(g, root, place.parent, place.index, root, q);
      }
      forall n, depth: nat, q | n in g && Below(g, removed, n, depth)
        ensures Resolve(Unregister(g, root, path), root, q) != Some(n)
      {
        RemovedUnreachable(g, root, place.parent, place.index, n, depth, q);
      }
    }
  }

  /** A new child answers to its name, and nothing before it does. */
  lemma {:induction false} NewChildFound<N>(g: Tree<N>, root: N, child: N, name: string)
    requires Closed(g) && root in g && child !in g && Unanswered(g, root, name)
    requires Closed(AddChild(g, root, child, name))
    ensures FirstMatch(AddChild(g, root, child, name), AddChild(g, root, child, name)[root].children, name) ==
            |g[root].children|
  {
    var grown := AddChild(g, root, child, name);
    var n := |g[root].children|;
    assert grown[root].children[n] == child && grown[child].Matches(name);
    forall j | 0 <= j < n ensures !grown[grown[root].children[j]].Matches(name) {
      assert grown[root].children[j] == g[root].children[j];
      assert !g[g[root].children[j]].Matches(name);
    }
    FirstMatchIs(grown, grown[root].children, name, n);
  }

  /** A new command answers to its name and to nothing else, has nothing below it, takes no parameters and
      cannot be executed yet. */
  lemma {:induction false} NewCommandIsBare<N>(g: Tree<N>, parent: N, child: N, name: string, token: string)
    requires Closed(g) && parent in g && child !in g && Closed(AddChild(g, parent, child, name))
    requires Unanswered(g, parent, token)
    ensures var grown := AddChild(g, parent, child, name);
            && (FindChild(grown, parent, token) == Some(child) <==> token == name)
            && FindChild(grown, child, token).None?
            && grown[child].parameters == [] && !grown[child].executable
  {
    var grown := AddChild(g, parent, child, name);
    var n := |g[parent].children|;
    forall j | 0 <= j < n ensures !grown[grown[parent].children[j]].Matches(token) {
      assert grown[parent].children[j] == g[parent].children[j];
      assert !g[g[parent].children[j]].Matches(token);
    }
    FirstMatchIs(grown, grown[parent].children, token, if token == name then n else n + 1);
  }

  lemma {:induction false} OrphanInvisible<N>(g: Tree<N>, child: N, name: string, n: N, q: seq<string>)
    requires Closed(g) && child !in g && n in g
    ensures Closed(g[child := Leaf(name)])
    ensures Resolve(g[child := Leaf(name)], n, q) == Resolve(g, n, q)
    decreases |q|
  {
    var g' := g[child := Leaf(name)];
    assert Closed(g');
    if q != [] {
      var i := FirstMatch(g, g[n].children, q[0]);
      FirstMatchIs(g', g'[n].children, q[0], i);
      if i < |g[n].children| {
        OrphanInvisible(g, child, name, g[n].children[i], q[1..]);
      }
    }
  }

  /** Registering a new child and unregistering it again leaves every path as it was. */
  lemma {:induction false} RegisterThenUnregister<N>(g: Tree<N>, root: N, child: N, name: string, q: seq<string>)
    requires TreeShaped(g, root) && SiblingsDistinct(g) && child !in g && Unanswered(g, root, name)
    ensures TreeShaped(AddChild(g, root, child, name), root)
    ensures Resolve(AddChild(g, root, child, name), root, [name]) == Some(child)
    ensures var g' := Unregister(AddChild(g, root, child, name), root, [name]);
            && Closed(g') && g' == g[child := Leaf(name)]
            && Resolve(g', root, q) == Resolve(g, root, q)
  {
    AddChildKeepsShape(g, root, root, child, name);
    var grown := AddChild(g, root, child, name);
    var n := |g[root].children|;
    NewChildFound(g, root, child, name);
    assert PlaceOf(grown, root, [name]) == At(root, n);
    assert Without(g[root].children + [child], n) == g[root].children;
    assert Unregister(grown, root, [name]) == g[child := Leaf(name)];
    OrphanInvisible(g, child, name, root, q);
  }
}
