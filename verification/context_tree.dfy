/** The tree of dependency scopes a load walks through
    (`AssemblyLoaderContext`, identical in both revisions). The C# nodes point
    at each other; here they live in an arena and refer to each other by
    index, a parent always being created before its children. */
module ContextTree {
  import opened Wrappers
  import opened Identity

  /** One `AssemblyLoaderContext`: the name, the optional parent, the children
      in creation order. */
  datatype Node = Node(name: AssemblyName, parent: Option<nat>, children: seq<nat>)

  datatype Tree = Tree(nodes: seq<Node>)

  /** Parents precede their children, and the `Parent` and `Children` links
      agree in both directions. */
  predicate Valid(t: Tree) {
    && (forall i :: 0 <= i < |t.nodes| && t.nodes[i].parent.Some? ==>
          t.nodes[i].parent.value < i && i in t.nodes[t.nodes[i].parent.value].children)
    && (forall i, k :: 0 <= i < |t.nodes| && 0 <= k < |t.nodes[i].children| ==>
          i < t.nodes[i].children[k] < |t.nodes|
          && t.nodes[t.nodes[i].children[k]].parent == Some(i))
  }

  /** `u` is `t` with more scopes: every node of `t` keeps its name and its
      parent and may only have gained children. */
  predicate Extends(t: Tree, u: Tree) {
    && |t.nodes| <= |u.nodes|
    && forall k :: 0 <= k < |t.nodes| ==>
         && u.nodes[k].name == t.nodes[k].name
         && u.nodes[k].parent == t.nodes[k].parent
         && t.nodes[k].children <= u.nodes[k].children
  }

  lemma ExtendsTransitive(t: Tree, u: Tree, w: Tree)
    requires Extends(t, u) && Extends(u, w)
    ensures Extends(t, w)
  {
    forall k | 0 <= k < |t.nodes|
      ensures t.nodes[k].children <= w.nodes[k].children
    {
      var a, b, c := t.nodes[k].children, u.nodes[k].children, w.nodes[k].children;
      assert b[..|a|] == a && c[..|b|] == b;
      assert c[..|a|] == a;
    }
  }

  /** `new AssemblyLoaderContext(name)`: a root without parent or children. */
  function NewRoot(t: Tree, name: AssemblyName): (r: (Tree, nat))
    ensures r.1 == |t.nodes| && |r.0.nodes| == |t.nodes| + 1
    ensures r.0.nodes[r.1] == Node(name, None, [])
    ensures r.0.nodes[..|t.nodes|] == t.nodes
    ensures Extends(t, r.0)
    ensures Valid(t) ==> Valid(r.0)
  {
    (Tree(t.nodes + [Node(name, None, [])]), |t.nodes|)
  }

  /** `scope.NewScope(name)`: a fresh child of node `i`, appended to the
      children of `i`; every other node is left alone. */
  function NewScope(t: Tree, i: nat, name: AssemblyName): (r: (Tree, nat))
    requires i < |t.nodes|
    ensures r.1 == |t.nodes| && |r.0.nodes| == |t.nodes| + 1
    ensures r.0.nodes[r.1] == Node(name, Some(i), [])
    ensures r.0.nodes[i].name == t.nodes[i].name && r.0.nodes[i].parent == t.nodes[i].parent
    ensures r.0.nodes[i].children == t.nodes[i].children + [r.1]
    ensures forall k :: 0 <= k < |t.nodes| && k != i ==> r.0.nodes[k] == t.nodes[k]
    ensures Extends(t, r.0)
    ensures Valid(t) ==> Valid(r.0)
  {
    var j := |t.nodes|;
    var n := t.nodes[i];
    var nodes := t.nodes[i := Node(n.name, n.parent, n.children + [j])] + [Node(name, Some(i), [])];
    AddChildKeepsValid(t, i, nodes);
    (Tree(nodes), j)
  }

  /** Appending a child of `i` and recording it among the children of `i`
      keeps the links valid. */
  lemma AddChildKeepsValid(t: Tree, i: nat, nodes: seq<Node>)
    requires i < |t.nodes| && |nodes| == |t.nodes| + 1
    requires nodes[|t.nodes|].parent == Some(i) && nodes[|t.nodes|].children == []
    requires nodes[i].parent == t.nodes[i].parent && nodes[i].children == t.nodes[i].children + [|t.nodes|]
    requires forall k :: 0 <= k < |t.nodes| && k != i ==> nodes[k] == t.nodes[k]
    ensures Valid(t) ==> Valid(Tree(nodes))
  {
    if Valid(t) {
      forall p | 0 <= p < |nodes| && nodes[p].parent.Some?
        ensures nodes[p].parent.value < p && p in nodes[nodes[p].parent.value].children
      {
        if p < |t.nodes| {
          var q := t.nodes[p].parent.value;
          assert p in t.nodes[q].children;
          assert t.nodes[q].children <= nodes[q].children;
        }
      }
      forall p, k | 0 <= p < |nodes| && 0 <= k < |nodes[p].children|
        ensures p < nodes[p].children[k] < |nodes| && nodes[nodes[p].children[k]].parent == Some(p)
      {
        if p == i && k == |t.nodes[i].children| {
        } else {
          assert nodes[p].children[k] == t.nodes[p].children[k];
        }
      }
    }
  }

  /** The scopes from the root down to node `i`: each one the parent of the
      next, the first without a parent, the last `i` itself. */
  function Chain(t: Tree, i: nat): (r: seq<nat>)
    requires Valid(t) && i < |t.nodes|
    ensures |r| >= 1 && r[|r| - 1] == i
    ensures forall k :: 0 <= k < |r| ==> r[k] <= i
    ensures forall k :: 0 <= k < |r| ==> (t.nodes[r[k]].parent.None? <==> k == 0)
    ensures forall k :: 0 < k < |r| ==> r[k] < |t.nodes| && t.nodes[r[k]].parent == Some(r[k - 1])
    decreases i
  {
    match t.nodes[i].parent
    case None => [i]
    case Some(p) => Chain(t, p) + [i]
  }

  /** Growing the tree leaves every existing chain as it was. */
  lemma {:induction false} ChainStable(t: Tree, u: Tree, i: nat)
    requires Valid(t) && Valid(u) && Extends(t, u) && i < |t.nodes|
    ensures Chain(u, i) == Chain(t, i)
    decreases i
  {
    if t.nodes[i].parent.Some? {
      ChainStable(t, u, t.nodes[i].parent.value);
    }
  }

  /** The chain of a new scope is the chain of its parent followed by the
      scope itself. */
  lemma NewScopeChain(t: Tree, i: nat, name: AssemblyName)
    requires Valid(t) && i < |t.nodes|
    ensures var (u, j) := NewScope(t, i, name);
            Valid(u) && Chain(u, j) == Chain(t, i) + [j]
  {
    var (u, j) := NewScope(t, i, name);
    ChainStable(t, u, i);
  }

  /** The names along `Chain(t, i)`. */
  function ChainNames(t: Tree, i: nat): (r: seq<AssemblyName>)
    requires Valid(t) && i < |t.nodes|
    ensures |r| == |Chain(t, i)|
    ensures forall k :: 0 <= k < |r| ==> r[k] == t.nodes[Chain(t, i)[k]].name
  {
    var c := Chain(t, i);
    seq(|c|, k requires 0 <= k < |c| => t.nodes[c[k]].name)
  }

  /** The names along the chain of a fresh scope: those along its parent's,
      then its own. */
  lemma NewScopeChainNames(t: Tree, i: nat, name: AssemblyName)
    requires Valid(t) && i < |t.nodes|
    ensures Valid(NewScope(t, i, name).0)
    ensures ChainNames(NewScope(t, i, name).0, NewScope(t, i, name).1) == ChainNames(t, i) + [name]
  {
    var (u, j) := NewScope(t, i, name);
    NewScopeChain(t, i, name);
    var c, names := Chain(t, i), ChainNames(t, i);
    var longer := ChainNames(u, j);
    forall k | 0 <= k < |longer|
      ensures longer[k] == (names + [name])[k]
    {
      if k < |c| {
        assert Chain(u, j)[k] == c[k];
      }
    }
  }
}
