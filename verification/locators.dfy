/** Where an assembly's files are looked for.

    `AssemblyDataLocator` (both revisions) lists one directory per module hint,
    then `_content/{name}/_lazy`, then `_framework/_bin`; the current revision
    turns each directory into an `AssemblyLocation` of a `.dll` and a `.pdb`.
    `NetworkDependencyPathFinder` (server and browser providers) derives the
    directories from the dependency scope instead. */
module Locators {
  import opened Wrappers
  import opened Text
  import opened Identity
  import opened ContextTree

  /** `AssemblyLocation`: the DLL path and the optional PDB path. */
  datatype AssemblyLocation = AssemblyLocation(dllPath: string, pdbPath: Option<string>)

  /** `$"_content/{module}/_lazy"`. */
  function ContentPath(dir: string): string {
    "_content/" + dir + "/_lazy"
  }

  const FrameworkPath: string := "_framework/_bin"

  /** `$"{basePath}/{assembly.Name}.dll"` and the `.pdb` beside it. */
  function CreateAssemblyLocation(basePath: string, n: AssemblyName): (r: AssemblyLocation)
    ensures r.pdbPath.Some?
    ensures |r.dllPath| == |r.pdbPath.value| == |basePath| + |n.name| + 5
    ensures r.dllPath[..|basePath| + 1] == basePath + "/" == r.pdbPath.value[..|basePath| + 1]
    ensures EndsWith(r.dllPath, n.name + ".dll") && EndsWith(r.pdbPath.value, n.name + ".pdb")
  {
    var stem := basePath + "/" + n.name;
    assert (stem + ".dll")[..|basePath| + 1] == basePath + "/";
    assert (stem + ".pdb")[..|basePath| + 1] == basePath + "/";
    assert (stem + ".dll")[|stem + ".dll"| - |n.name + ".dll"|..] == n.name + ".dll";
    assert (stem + ".pdb")[|stem + ".pdb"| - |n.name + ".pdb"|..] == n.name + ".pdb";
    AssemblyLocation(stem + ".dll", Some(stem + ".pdb"))
  }

  /** The directories of the first revision's `GetFindPaths`: one per hint,
      in hint order, then the assembly's own content directory, then the
      framework directory. `display` is `AssemblyName.ToString()`, which the
      interpolation `{assemblyName}` calls. */
  function GetFindBasePaths(hints: seq<string>, n: AssemblyName, display: AssemblyName -> string): (r: seq<string>)
    ensures |r| == |hints| + 2
    ensures forall i :: 0 <= i < |hints| ==> r[i] == ContentPath(hints[i])
    ensures r[|hints|] == ContentPath(display(n)) && r[|hints| + 1] == FrameworkPath
  {
    seq(|hints|, i requires 0 <= i < |hints| => ContentPath(hints[i]))
      + [ContentPath(display(n)), FrameworkPath]
  }

  /** The current revision's `GetFindPaths`: the files of this assembly in
      each directory the first revision searches, in the same order. */
  function GetFindPaths(hints: seq<string>, n: AssemblyName, display: AssemblyName -> string): (r: seq<AssemblyLocation>)
    ensures |r| == |hints| + 2
    ensures forall i :: 0 <= i < |r| ==> r[i] == CreateAssemblyLocation(GetFindBasePaths(hints, n, display)[i], n)
    ensures r[|hints| + 1].dllPath == FrameworkPath + "/" + n.name + ".dll"
  {
    seq(|hints|, i requires 0 <= i < |hints| => CreateAssemblyLocation(ContentPath(hints[i]), n))
      + [CreateAssemblyLocation(ContentPath(display(n)), n), CreateAssemblyLocation(FrameworkPath, n)]
  }

  /** The two revisions search the same directories in the same order; the
      current one only names the files up front. */
  lemma LocatorRevisionsAgree(hints: seq<string>, n: AssemblyName, display: AssemblyName -> string)
    ensures var bases := GetFindBasePaths(hints, n, display);
            var locs := GetFindPaths(hints, n, display);
            |locs| == |bases|
            && forall i :: 0 <= i < |bases| ==> locs[i] == CreateAssemblyLocation(bases[i], n)
  {
  }

  /** Every location names this assembly's own `.dll` and `.pdb`. */
  lemma FindPathsNameTheAssembly(hints: seq<string>, n: AssemblyName, display: AssemblyName -> string)
    ensures forall loc :: loc in GetFindPaths(hints, n, display) ==>
              EndsWith(loc.dllPath, n.name + ".dll")
              && loc.pdbPath.Some? && EndsWith(loc.pdbPath.value, n.name + ".pdb")
  {
  }

  /** `seq` reversed (`List.Reverse`). */
  function Reverse<T>(s: seq<T>): (r: seq<T>)
    ensures |r| == |s|
    ensures forall i :: 0 <= i < |s| ==> r[i] == s[|s| - 1 - i]
  {
    seq(|s|, i requires 0 <= i < |s| => s[|s| - 1 - i])
  }

  /** Lines 87-97 of the path finder: collect the scope and its ancestors
      walking up, reverse, drop the root. What is left is the chain below the
      root, ending with the scope itself. */
  method BranchesBelowRoot(t: Tree, ctx: nat) returns (root: nat, branches: seq<nat>)
    requires Valid(t) && ctx < |t.nodes|
    ensures root == Chain(t, ctx)[0] && t.nodes[root].parent.None?
    ensures branches == Chain(t, ctx)[1..]
  {
    ghost var c := Chain(t, ctx);
    var collected := [ctx];
    root := ctx;
    while t.nodes[root].parent.Some?
      invariant 1 <= |collected| <= |c|
      invariant root == c[|c| - |collected|] && root < |t.nodes|
      invariant forall m :: 0 <= m < |collected| ==> collected[m] == c[|c| - 1 - m]
      decreases |c| - |collected|
    {
      root := t.nodes[root].parent.value;
      collected := collected + [root];
    }
    var ordered := Reverse(collected);
    assert ordered == c;
    branches := ordered[1..];
  }

  /** `NetworkDependencyPathFinder.GetFindPaths`: the root scope's content
      directory, the framework directory, then the content directory of every
      scope below the root, top-down, ending with the requesting scope. */
  function DependencyFindPaths(t: Tree, ctx: nat): (r: seq<string>)
    requires Valid(t) && ctx < |t.nodes|
    ensures |r| == |Chain(t, ctx)| + 1
  {
    PathsOfChain(ChainNames(t, ctx))
  }

  /** The search directories for the names along a chain: the root's content
      directory, the framework directory, then the content directory of every
      scope below the root. */
  function PathsOfChain(names: seq<AssemblyName>): (r: seq<string>)
    requires |names| >= 1
    ensures |r| == |names| + 1
  {
    [ContentPath(names[0].name), FrameworkPath]
      + seq(|names| - 1, k requires 0 <= k < |names| - 1 => ContentPath(names[k + 1].name))
  }

  /** One more scope at the bottom of the chain adds its content directory at
      the end. */
  lemma PathsOfLongerChain(names: seq<AssemblyName>, n: AssemblyName)
    requires |names| >= 1
    ensures PathsOfChain(names + [n]) == PathsOfChain(names) + [ContentPath(n.name)]
  {
  }

  /** The implementation of the path finder yields what `DependencyFindPaths`
      describes. */
  method DependencyFindPathsImpl(t: Tree, ctx: nat) returns (paths: seq<string>)
    requires Valid(t) && ctx < |t.nodes|
    ensures paths == DependencyFindPaths(t, ctx)
  {
    var root, branches := BranchesBelowRoot(t, ctx);
    paths := [ContentPath(t.nodes[root].name.name), FrameworkPath];
    var k := 0;
    while k < |branches|
      invariant 0 <= k <= |branches|
      invariant |paths| == k + 2
      invariant paths[..2] == [ContentPath(t.nodes[root].name.name), FrameworkPath]
      invariant forall m :: 0 <= m < k ==> paths[m + 2] == ContentPath(t.nodes[branches[m]].name.name)
    {
      paths := paths + [ContentPath(t.nodes[branches[k]].name.name)];
      k := k + 1;
    }
    FindPathsAlongChain(t, ctx, root, branches, paths);
  }

  /** Paths laid out as the loop above lays them out are the search paths. */
  lemma FindPathsAlongChain(t: Tree, ctx: nat, root: nat, branches: seq<nat>, paths: seq<string>)
    requires Valid(t) && ctx < |t.nodes|
    requires root == Chain(t, ctx)[0] && branches == Chain(t, ctx)[1..]
    requires |paths| == |branches| + 2
    requires paths[..2] == [ContentPath(t.nodes[root].name.name), FrameworkPath]
    requires forall m :: 0 <= m < |branches| ==> paths[m + 2] == ContentPath(t.nodes[branches[m]].name.name)
    ensures paths == DependencyFindPaths(t, ctx)
  {
    var names := ChainNames(t, ctx);
    var r := PathsOfChain(names);
    assert paths[0] == r[0] && paths[1] == r[1] by { assert paths[0] == paths[..2][0] && paths[1] == paths[..2][1]; }
    forall m | 2 <= m < |paths|
      ensures paths[m] == r[m]
    {
      assert paths[(m - 2) + 2] == ContentPath(t.nodes[branches[m - 2]].name.name);
    }
  }

  /** A root scope searches its own content directory, then the framework. */
  lemma RootScopeFindPaths(t: Tree, ctx: nat)
    requires Valid(t) && ctx < |t.nodes| && t.nodes[ctx].parent.None?
    ensures DependencyFindPaths(t, ctx) == [ContentPath(t.nodes[ctx].name.name), FrameworkPath]
  {
  }

  /** A fresh scope searches exactly what its parent searches, plus its own
      content directory last. */
  lemma NewScopeFindPaths(t: Tree, i: nat, name: AssemblyName)
    requires Valid(t) && i < |t.nodes|
    ensures var (u, j) := NewScope(t, i, name);
            Valid(u) && DependencyFindPaths(u, j) == DependencyFindPaths(t, i) + [ContentPath(name.name)]
  {
    NewScopeChainNames(t, i, name);
    PathsOfLongerChain(ChainNames(t, i), name);
  }
}
