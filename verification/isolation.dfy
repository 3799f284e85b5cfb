/** The isolation contexts assemblies are loaded into.

    `DisposableAssemblyLoadContext` (server) wraps a .NET `AssemblyLoadContext`
    that is collectible unless a debugger is attached; `AppDomainAssemblyLoadContext`
    (browser) wraps an `AppDomain`, falling back to the current domain when a
    new one cannot be created. The runtime calls that actually load bytes are
    parameters (`Runtime`), answering `None` where the runtime throws, which
    both contexts catch. The calls made to the runtime are recorded so that
    what `Dispose` does can be stated. */
module Isolation {
  import opened Wrappers
  import opened Sequences
  import opened Identity
  import opened Providers

  /** `LoadFromStream`/`AppDomain.Load` from an image (with the symbols when
      given) and `LoadFromAssemblyName`, each given the assemblies already in
      the context. */
  datatype Runtime = Runtime(
    fromImage: (seq<Assembly>, AssemblyData) -> Option<Assembly>,
    fromName: (seq<Assembly>, AssemblyName) -> Option<Assembly>)

  /** Runtime calls that change what is loaded. */
  datatype RuntimeCall =
    | LoadImage(withSymbols: bool)
    | LoadName(name: AssemblyName)
    | UnloadContext
    | UnloadDomain

  /** `AllAssemblies` of both contexts: the context's own assemblies, then the
      shared ones, without repeats under the by-name-and-version comparer. */
  function AllOf(h: Hashes, own: seq<Assembly>, shared: seq<Assembly>): (r: seq<Assembly>)
    ensures DistinctKeys(r, (a: Assembly) => NVHashOf(h, a))
    ensures forall a :: a in r ==> a in own || a in shared
    ensures forall a :: a in own || a in shared ==> exists b :: b in r && NVEquals(h, b.identity, a.identity)
  {
    var key := (a: Assembly) => NVHashOf(h, a);
    var r := DistinctBy(own + shared, key);
    assert forall a :: a in own || a in shared ==> key(a) in Keys(r, key) by {
      forall a | a in own || a in shared
        ensures key(a) in Keys(r, key)
      {
        assert a in own + shared;
        assert key(a) in Keys(own + shared, key);
      }
    }
    r
  }

  /** One assembly of either list is shown by `AllAssemblies`. */
  lemma ShownByAll(h: Hashes, own: seq<Assembly>, shared: seq<Assembly>, a: Assembly)
    requires a in own || a in shared
    ensures exists b :: b in AllOf(h, own, shared) && NVEquals(h, b.identity, a.identity)
  {
  }

  /** An own assembly is never shadowed: `AllAssemblies` keeps the first of
      each key, and the own assemblies come first. */
  lemma OwnComesFirst(h: Hashes, own: seq<Assembly>, shared: seq<Assembly>)
    requires DistinctKeys(own, (a: Assembly) => NVHashOf(h, a))
    ensures |AllOf(h, own, shared)| >= |own| && AllOf(h, own, shared)[..|own|] == own
  {
    var key := (a: Assembly) => NVHashOf(h, a);
    var xs := own + shared;
    DistinctByKeepsFirsts(xs, key);
    FirstsPrefix(xs, key, |own|);
  }

  /** Before index `n`, every element is the first of its key, so the reference
      keeps the whole prefix. */
  lemma {:induction false} FirstsPrefix<T(!new), K>(xs: seq<T>, key: T -> K, n: nat)
    requires n <= |xs|
    requires forall i, j :: 0 <= i < j < n ==> key(xs[i]) != key(xs[j])
    ensures |FirstsOfKeys(xs, key, |xs|)| >= n
    ensures FirstsOfKeys(xs, key, |xs|)[..n] == xs[..n]
  {
    FirstsPrefixUpTo(xs, key, n, n);
    FirstsGrow(xs, key, n, |xs|);
  }

  lemma {:induction false} FirstsPrefixUpTo<T(!new), K>(xs: seq<T>, key: T -> K, n: nat, m: nat)
    requires m <= n <= |xs|
    requires forall i, j :: 0 <= i < j < n ==> key(xs[i]) != key(xs[j])
    ensures FirstsOfKeys(xs, key, m) == xs[..m]
  {
    if m > 0 {
      FirstsPrefixUpTo(xs, key, n, m - 1);
      assert FirstOfKey(xs, key, m - 1);
      assert xs[..m] == xs[..m - 1] + [xs[m - 1]];
    }
  }

  lemma {:induction false} FirstsGrow<T(!new), K>(xs: seq<T>, key: T -> K, m: nat, n: nat)
    requires m <= n <= |xs|
    ensures |FirstsOfKeys(xs, key, m)| <= |FirstsOfKeys(xs, key, n)|
    ensures FirstsOfKeys(xs, key, n)[..|FirstsOfKeys(xs, key, m)|] == FirstsOfKeys(xs, key, m)
    decreases n - m
  {
    if m < n {
      FirstsGrow(xs, key, m, n - 1);
      var a := FirstsOfKeys(xs, key, m);
      var b := FirstsOfKeys(xs, key, n - 1);
      var c := FirstsOfKeys(xs, key, n);
      assert c[..|b|] == b;
      assert c[..|a|] == b[..|a|];
    }
  }

  // ---------------------------------------------------------------------------
  // DisposableAssemblyLoadContext

  /** A .NET `AssemblyLoadContext`: its name, whether it is collectible, what
      it has loaded. */
  datatype LoadContext = LoadContext(name: string, collectible: bool, assemblies: seq<Assembly>)

  /** `_canBeUnloaded`, the nullable `_assemblyLoadContext`, the assemblies of
      `AssemblyLoadContext.Default`, and the runtime calls made so far. */
  datatype Disposable = Disposable(canBeUnloaded: bool, alc: Option<LoadContext>,
                                   defaults: seq<Assembly>, calls: seq<RuntimeCall>)

  /** The constructor: a context that can be unloaded exactly when no
      debugger is attached. */
  function NewDisposable(name: string, debugging: bool, defaults: seq<Assembly>): (c: Disposable)
    ensures c.canBeUnloaded == !debugging
    ensures c.alc.Some? && c.alc.value.collectible == c.canBeUnloaded && c.alc.value.assemblies == []
    ensures c.calls == []
  {
    Disposable(!debugging, Some(LoadContext(name, !debugging, [])), defaults, [])
  }

  /** `OwnAssemblies`: nothing once disposed. */
  function DisposableOwn(c: Disposable): seq<Assembly> {
    if c.alc.None? then [] else c.alc.value.assemblies
  }

  /** `AllAssemblies`. */
  function DisposableAll(h: Hashes, c: Disposable): seq<Assembly> {
    AllOf(h, DisposableOwn(c), c.defaults)
  }

  /** `Load(AssemblyData)`: nothing once disposed; otherwise the image, with
      its symbols when it has them, goes into the context. */
  function DisposableLoadData(rt: Runtime, c: Disposable, d: AssemblyData): (r: (Disposable, Option<Assembly>))
    ensures c.alc.None? ==> r == (c, None)
    ensures c.alc.Some? ==> r.0.calls == c.calls + [LoadImage(d.pdb.Some?)]
    ensures r.1.Some? ==> DisposableOwn(r.0) == DisposableOwn(c) + [r.1.value]
    ensures r.1.None? ==> DisposableOwn(r.0) == DisposableOwn(c)
    ensures r.0.canBeUnloaded == c.canBeUnloaded && r.0.defaults == c.defaults
  {
    match c.alc
    case None => (c, None)
    case Some(alc) =>
      var loaded := rt.fromImage(alc.assemblies, d);
      var calls := c.calls + [LoadImage(d.pdb.Some?)];
      match loaded
      case None => (c.(calls := calls), None)
      case Some(a) => (c.(alc := Some(alc.(assemblies := alc.assemblies + [a])), calls := calls), loaded)
  }

  /** `Load(AssemblyName)`: nothing once disposed; otherwise whatever the
      runtime resolves for the name, which leaves the context's own
      assemblies as they were. */
  function DisposableLoadName(rt: Runtime, c: Disposable, n: AssemblyName): (r: (Disposable, Option<Assembly>))
    ensures c.alc.None? ==> r == (c, None)
    ensures c.alc.Some? ==> r.0 == c.(calls := c.calls + [LoadName(n)])
    ensures DisposableOwn(r.0) == DisposableOwn(c)
  {
    match c.alc
    case None => (c, None)
    case Some(alc) => (c.(calls := c.calls + [LoadName(n)]), rt.fromName(alc.assemblies, n))
  }

  /** `Dispose()`: drops the context, and asks the runtime to unload it only
      when it is collectible. */
  function DisposableDispose(c: Disposable): (r: Disposable)
    ensures r.alc.None? && r.canBeUnloaded == c.canBeUnloaded && r.defaults == c.defaults
    ensures r.calls == c.calls + (if c.canBeUnloaded && c.alc.Some? then [UnloadContext] else [])
  {
    if !c.canBeUnloaded || c.alc.None? then c.(alc := None)
    else c.(alc := None, calls := c.calls + [UnloadContext])
  }

  /** A disposed context loads nothing, owns nothing, shows only the default
      assemblies, and disposing it again changes nothing. */
  lemma DisposedContextIsInert(h: Hashes, rt: Runtime, c: Disposable, d: AssemblyData, n: AssemblyName)
    ensures var e := DisposableDispose(c);
            && DisposableDispose(e) == e
            && DisposableLoadData(rt, e, d) == (e, None)
            && DisposableLoadName(rt, e, n) == (e, None)
            && DisposableOwn(e) == []
            && DisposableAll(h, e) == AllOf(h, [], c.defaults)
  {
  }

  /** The runtime is asked to unload at most once over any number of
      disposals, and never while a debugger was attached at construction. */
  lemma UnloadAtMostOnce(name: string, debugging: bool, defaults: seq<Assembly>)
    ensures var c := NewDisposable(name, debugging, defaults);
            var e := DisposableDispose(DisposableDispose(c));
            e.calls == (if debugging then [] else [UnloadContext])
  {
  }

  /** An image the context loaded is visible in `AllAssemblies` (itself or an
      assembly the comparer equates with it). */
  lemma LoadedImageIsVisible(h: Hashes, rt: Runtime, c: Disposable, d: AssemblyData)
    ensures var (e, a) := DisposableLoadData(rt, c, d);
            a.Some? ==> exists b :: b in DisposableAll(h, e) && NVEquals(h, b.identity, a.value.identity)
  {
    var (e, a) := DisposableLoadData(rt, c, d);
    if a.Some? {
      ShownByAll(h, DisposableOwn(e), e.defaults, a.value);
    }
  }

  // ---------------------------------------------------------------------------
  // AppDomainAssemblyLoadContext

  /** The domain the context holds: the process's base domain, or a domain it
      created. */
  datatype Domain = BaseDomain | Created(name: string, assemblies: seq<Assembly>)

  /** `_baseDomain`'s assemblies, the nullable `_domain`, the runtime calls. */
  datatype AppDomainContext = AppDomainContext(baseAssemblies: seq<Assembly>, domain: Option<Domain>,
                                               calls: seq<RuntimeCall>)

  /** The constructor: `AppDomain.CreateDomain(name)`, or the base domain when
      that throws (`canCreate` false). */
  function NewAppDomainContext(name: string, canCreate: bool, baseAssemblies: seq<Assembly>): (c: AppDomainContext)
    ensures c.domain.Some? && (c.domain.value.BaseDomain? <==> !canCreate)
    ensures c.calls == []
  {
    AppDomainContext(baseAssemblies, Some(if canCreate then Created(name, []) else BaseDomain), [])
  }

  /** `OwnAssemblies`: nothing once disposed or while on the base domain. */
  function AppDomainOwn(c: AppDomainContext): seq<Assembly> {
    match c.domain
    case None => []
    case Some(BaseDomain) => []
    case Some(Created(_, assemblies)) => assemblies
  }

  /** `AllAssemblies`. */
  function AppDomainAll(h: Hashes, c: AppDomainContext): seq<Assembly> {
    AllOf(h, AppDomainOwn(c), c.baseAssemblies)
  }

  /** `Load(AssemblyData)`: nothing once disposed; otherwise the image goes
      into the domain held, which is the base domain after the fallback. */
  function AppDomainLoadData(rt: Runtime, c: AppDomainContext, d: AssemblyData): (r: (AppDomainContext, Option<Assembly>))
    ensures c.domain.None? ==> r == (c, None)
    ensures c.domain.Some? ==> r.0.calls == c.calls + [LoadImage(d.pdb.Some?)]
    ensures r.0.domain.Some? == c.domain.Some?
    ensures c.domain == Some(BaseDomain) ==> r.0.domain == Some(BaseDomain)
    ensures r.1.Some? && c.domain == Some(BaseDomain) ==>
              r.0.baseAssemblies == c.baseAssemblies + [r.1.value] && AppDomainOwn(r.0) == []
    ensures r.1.Some? && c.domain.Some? && c.domain.value.Created? ==>
              AppDomainOwn(r.0) == AppDomainOwn(c) + [r.1.value] && r.0.baseAssemblies == c.baseAssemblies
  {
    match c.domain
    case None => (c, None)
    case Some(BaseDomain) =>
      var loaded := rt.fromImage(c.baseAssemblies, d);
      var calls := c.calls + [LoadImage(d.pdb.Some?)];
      if loaded.None? then (c.(calls := calls), None)
      else (c.(baseAssemblies := c.baseAssemblies + [loaded.value], calls := calls), loaded)
    case Some(Created(name, assemblies)) =>
      var loaded := rt.fromImage(assemblies, d);
      var calls := c.calls + [LoadImage(d.pdb.Some?)];
      if loaded.None? then (c.(calls := calls), None)
      else (c.(domain := Some(Created(name, assemblies + [loaded.value])), calls := calls), loaded)
  }

  /** `Dispose()`: unloads a created domain, never the base domain. */
  function AppDomainDispose(c: AppDomainContext): (r: AppDomainContext)
    ensures r.domain.None? && r.baseAssemblies == c.baseAssemblies
    ensures r.calls == c.calls + (if c.domain.Some? && c.domain.value.Created? then [UnloadDomain] else [])
  {
    match c.domain
    case None => c
    case Some(BaseDomain) => c.(domain := None)
    case Some(Created(_, _)) => c.(domain := None, calls := c.calls + [UnloadDomain])
  }

  /** Disposing twice is disposing once, and a disposed context loads
      nothing. */
  lemma AppDomainDisposedIsInert(h: Hashes, rt: Runtime, c: AppDomainContext, d: AssemblyData)
    ensures var e := AppDomainDispose(c);
            && AppDomainDispose(e) == e
            && AppDomainLoadData(rt, e, d) == (e, None)
            && AppDomainOwn(e) == []
            && AppDomainAll(h, e) == AllOf(h, [], c.baseAssemblies)
  {
  }

  /** On the base-domain fallback the context owns nothing, yet what it loads
      is visible through the shared assemblies. */
  lemma FallbackLoadsIntoBaseDomain(h: Hashes, rt: Runtime, c: AppDomainContext, d: AssemblyData)
    requires c.domain == Some(BaseDomain)
    ensures var (e, a) := AppDomainLoadData(rt, c, d);
            && e.domain == Some(BaseDomain)
            && AppDomainOwn(e) == []
            && (a.Some? ==> exists b :: b in AppDomainAll(h, e) && NVEquals(h, b.identity, a.value.identity))
  {
    var (e, a) := AppDomainLoadData(rt, c, d);
    if a.Some? {
      ShownByAll(h, AppDomainOwn(e), e.baseAssemblies, a.value);
    }
  }
}
