/** `LazyRouter` (src/LazyComponents/LazyRoute/LazyRouter.cs): a Blazor
    router that also routes to pages of modules not loaded yet.

    The lazy routes come from the `Routes` sections of the module manifests:
    one handler per module and page type, holding every route of that type.
    Navigating cuts the query and fragment off the location, splits the path
    into segments and asks the route table for a handler. A page type is
    rendered; a lazy handler loads its module, after which the routes are
    rebuilt; nothing found shows `Loading` before the first render and
    `NotFound` after it, unless the navigation was intercepted, in which case
    the browser loads the location itself. The route table (`RouteTable`,
    `RouteTableFactory`) is not part of this model: it is the `route`
    parameter. */
module LazyRouting {
  import opened Wrappers
  import opened Text
  import Sequences
  import opened Identity
  import opened Manifests
  import RouteContexts

  /** `_queryOrHashStartChar` (line 36). */
  const QueryOrHashStart: set<char> := {'?', '#'}

  /** `StringUntilAny` (lines 128-134): the prefix before the first of
      `chars`, or the whole string. */
  function StringUntilAny(s: string, chars: set<char>): (r: string)
    ensures |r| <= |s| && r == s[..|r|]
    ensures forall k :: 0 <= k < |r| ==> r[k] !in chars
    ensures |r| < |s| ==> s[|r|] in chars
  {
    var first := IndexOfAny(s, chars, 0, |s|);
    if first < 0 then s else s[..first]
  }

  /** A string without any of `chars` is kept whole. */
  lemma StringUntilAnyKeepsClean(s: string, chars: set<char>)
    requires forall k :: 0 <= k < |s| ==> s[k] !in chars
    ensures StringUntilAny(s, chars) == s
  {
    var first := IndexOfAny(s, chars, 0, |s|);
    assert first == -1;
  }

  /** Cutting twice is cutting once. */
  lemma StringUntilAnyIdempotent(s: string, chars: set<char>)
    ensures StringUntilAny(StringUntilAny(s, chars), chars) == StringUntilAny(s, chars)
  {
    StringUntilAnyKeepsClean(StringUntilAny(s, chars), chars);
  }

  /** Whatever follows the first of `chars` does not matter. */
  lemma StringUntilAnyIgnoresTail(prefix: string, c: char, tail: string, chars: set<char>)
    requires forall k :: 0 <= k < |prefix| ==> prefix[k] !in chars
    requires c in chars
    ensures StringUntilAny(prefix + [c] + tail, chars) == prefix
  {
    var s := prefix + [c] + tail;
    assert s[|prefix|] == c;
    assert forall k :: 0 <= k < |prefix| ==> s[k] == prefix[k];
    var first := IndexOfAny(s, chars, 0, |s|);
    assert first == |prefix|;
    assert s[..first] == prefix;
  }

  /** The parameters `SetParametersAsync` demands (lines 91-117), in the
      order it checks them. */
  datatype RouterParameter = AppAssembly | Found | Loading | NotFound

  /** Which of them were given a value. */
  datatype Parameters = Parameters(appAssembly: bool, found: bool, loading: bool, notFound: bool)

  predicate IsSet(p: Parameters, q: RouterParameter) {
    match q
    case AppAssembly => p.appAssembly
    case Found => p.found
    case Loading => p.loading
    case NotFound => p.notFound
  }

  function Rank(q: RouterParameter): nat {
    match q
    case AppAssembly => 0
    case Found => 1
    case Loading => 2
    case NotFound => 3
  }

  /** The parameter whose absence `SetParametersAsync` reports with an
      `InvalidOperationException`, if any: the first missing one. */
  function MissingParameter(p: Parameters): (r: Option<RouterParameter>)
    ensures r.None? <==> forall q :: IsSet(p, q)
    ensures r.Some? ==> !IsSet(p, r.value) && forall q :: Rank(q) < Rank(r.value) ==> IsSet(p, q)
  {
    if !p.appAssembly then assert !IsSet(p, AppAssembly); Some(AppAssembly)
    else if !p.found then assert !IsSet(p, Found); Some(Found)
    else if !p.loading then assert !IsSet(p, Loading); Some(Loading)
    else if !p.notFound then assert !IsSet(p, NotFound); Some(NotFound)
    else None
  }

  /** One entry of a `Routes` section with both fields present and not
      blank (lines 227-237). */
  datatype RouteEntry = RouteEntry(typeFullName: string, route: string)

  /** `LazyRouteHandler` (lines 309-320). */
  datatype LazyRouteHandler = LazyRouteHandler(moduleName: string, typeFullName: string)

  /** One key and value of the dictionary built at lines 245-247. */
  datatype LazyRoute = LazyRoute(handler: LazyRouteHandler, routes: seq<string>)

  /** The entry an object describes, when both of its fields are non-blank
      strings (line 232). */
  function EntryOf(o: seq<(string, Json)>): Option<RouteEntry> {
    var t := StringValue(o, "TypeFullName");
    var route := StringValue(o, "Route");
    if IsNullOrWhiteSpace(t) || IsNullOrWhiteSpace(route) then None
    else Some(RouteEntry(t.value, route.value))
  }

  function RouteEntries(objs: seq<seq<(string, Json)>>): (r: seq<RouteEntry>)
    ensures forall e :: e in r <==> exists o :: o in objs && EntryOf(o) == Some(e)
    ensures forall e :: e in r ==> !IsBlank(e.typeFullName) && !IsBlank(e.route)
  {
    if |objs| == 0 then []
    else
      assert objs == [objs[0]] + objs[1..];
      var head := if EntryOf(objs[0]).Some? then [EntryOf(objs[0]).value] else [];
      head + RouteEntries(objs[1..])
  }

  /** The objects of a manifest's `Routes` section. */
  function RouteObjects(m: ModuleManifest): seq<seq<(string, Json)>> {
    match Section(m, "Routes")
    case Some(t) => ObjectChildren(t)
    case None => []
  }

  function TypeOf(e: RouteEntry): string {
    e.typeFullName
  }

  function RoutesOf(es: seq<RouteEntry>): (r: seq<string>)
    ensures |r| == |es|
    ensures forall route :: route in r <==> exists e :: e in es && e.route == route
  {
    var r := seq(|es|, k requires 0 <= k < |es| => es[k].route);
    assert forall route :: route in r ==> exists e :: e in es && e.route == route by {
      forall route | route in r
        ensures exists e :: e in es && e.route == route
      {
        var k :| 0 <= k < |r| && r[k] == route;
        assert es[k] in es;
      }
    }
    assert forall e :: e in es ==> e.route in r by {
      forall e | e in es
        ensures e.route in r
      {
        var k :| 0 <= k < |es| && es[k] == e;
        assert r[k] == e.route;
      }
    }
    r
  }

  /** One handler per group of entries. */
  function Handlers(owner: string, groups: seq<(string, seq<RouteEntry>)>): (r: seq<LazyRoute>)
    ensures |r| == |groups|
    ensures forall i :: 0 <= i < |r| ==> r[i] == LazyRoute(LazyRouteHandler(owner, groups[i].0), RoutesOf(groups[i].1))
  {
    seq(|groups|, i requires 0 <= i < |groups| => LazyRoute(LazyRouteHandler(owner, groups[i].0), RoutesOf(groups[i].1)))
  }

  /** No group of `GroupBy` is empty. */
  lemma GroupsAreInhabited(entries: seq<RouteEntry>)
    ensures var groups := Sequences.GroupBy(entries, TypeOf);
            forall i :: 0 <= i < |groups| ==> |groups[i].1| > 0
  {
    var groups := Sequences.GroupBy(entries, TypeOf);
    forall i | 0 <= i < |groups|
      ensures |groups[i].1| > 0
    {
      var t := groups[i].0;
      var e :| e in entries && TypeOf(e) == t;
      assert Sequences.HasKey(TypeOf, t)(e);
      assert e in groups[i].1;
    }
  }

  /** A group's routes are the routes of the entries of its type. */
  lemma GroupRoutesAreEntries(entries: seq<RouteEntry>)
    ensures var groups := Sequences.GroupBy(entries, TypeOf);
            forall i, route :: 0 <= i < |groups| ==>
              (route in RoutesOf(groups[i].1) <==> RouteEntry(groups[i].0, route) in entries)
  {
    var groups := Sequences.GroupBy(entries, TypeOf);
    forall i, route | 0 <= i < |groups|
      ensures route in RoutesOf(groups[i].1) <==> RouteEntry(groups[i].0, route) in entries
    {
      var t := groups[i].0;
      var e := RouteEntry(t, route);
      assert Sequences.HasKey(TypeOf, t)(e);
      if route in RoutesOf(groups[i].1) {
        var e' :| e' in groups[i].1 && e'.route == route;
        assert Sequences.HasKey(TypeOf, t)(e');
        assert e' == e;
      }
    }
  }

  /** Every entry lands in the group of its type. */
  lemma EntriesAreGrouped(entries: seq<RouteEntry>)
    ensures var groups := Sequences.GroupBy(entries, TypeOf);
            forall e :: e in entries ==>
              exists i :: 0 <= i < |groups| && groups[i].0 == e.typeFullName && e.route in RoutesOf(groups[i].1)
  {
    var groups := Sequences.GroupBy(entries, TypeOf);
    forall e | e in entries
      ensures exists i :: 0 <= i < |groups| && groups[i].0 == e.typeFullName && e.route in RoutesOf(groups[i].1)
    {
      assert TypeOf(e) in Sequences.Keys(entries, TypeOf);
      var i :| 0 <= i < |groups| && groups[i].0 == e.typeFullName;
      assert Sequences.HasKey(TypeOf, e.typeFullName)(e);
      assert e in groups[i].1;
    }
  }

  /** The routes of one manifest's entries, grouped by page type (line 238):
      one handler per type, in order of first appearance. */
  function ModuleRoutes(owner: string, entries: seq<RouteEntry>): (r: seq<LazyRoute>)
    ensures forall i :: 0 <= i < |r| ==> r[i].handler.moduleName == owner && |r[i].routes| > 0
    ensures forall i, j :: 0 <= i < j < |r| ==> r[i].handler != r[j].handler
  {
    GroupsAreInhabited(entries);
    Handlers(owner, Sequences.GroupBy(entries, TypeOf))
  }

  /** `handler` serves `route`. */
  predicate Serves(rs: seq<LazyRoute>, handler: LazyRouteHandler, route: string) {
    exists i :: 0 <= i < |rs| && rs[i].handler == handler && route in rs[i].routes
  }

  /** An entry of `m`'s `Routes` section. */
  predicate Declares(m: ModuleManifest, h: LazyRouteHandler, route: string) {
    m.moduleName == h.moduleName && RouteEntry(h.typeFullName, route) in RouteEntries(RouteObjects(m))
  }

  function RoutesOfManifest(m: ModuleManifest): seq<LazyRoute> {
    ModuleRoutes(m.moduleName, RouteEntries(RouteObjects(m)))
  }

  /** The handlers of one manifest serve exactly the routes it declares,
      each under the handler of its page type, holding every route of that
      type. */
  lemma ModuleRoutesServeEntries(owner: string, entries: seq<RouteEntry>, h: LazyRouteHandler, route: string)
    ensures Serves(ModuleRoutes(owner, entries), h, route) <==> h.moduleName == owner && RouteEntry(h.typeFullName, route) in entries
  {
    var groups := Sequences.GroupBy(entries, TypeOf);
    var rs := ModuleRoutes(owner, entries);
    GroupRoutesAreEntries(entries);
    if Serves(rs, h, route) {
      var i :| 0 <= i < |rs| && rs[i].handler == h && route in rs[i].routes;
      assert rs[i] == LazyRoute(LazyRouteHandler(owner, groups[i].0), RoutesOf(groups[i].1));
    }
    if h.moduleName == owner && RouteEntry(h.typeFullName, route) in entries {
      EntriesAreGrouped(entries);
      var e := RouteEntry(h.typeFullName, route);
      var i :| 0 <= i < |groups| && groups[i].0 == e.typeFullName && e.route in RoutesOf(groups[i].1);
      assert rs[i].handler == h && route in rs[i].routes;
    }
  }

  lemma ManifestServesItsEntries(m: ModuleManifest, h: LazyRouteHandler, route: string)
    ensures Serves(RoutesOfManifest(m), h, route) <==> Declares(m, h, route)
  {
    ModuleRoutesServeEntries(m.moduleName, RouteEntries(RouteObjects(m)), h, route);
  }

  /** What one manifest contributes to the route table. */
  type Contribution = ModuleManifest -> seq<LazyRoute>

  /** Each manifest's handlers belong to its module. */
  ghost predicate OwnedBy(f: Contribution) {
    forall m, i :: 0 <= i < |f(m)| ==> f(m)[i].handler.moduleName == m.moduleName
  }

  /** No manifest contributes the same handler twice. */
  ghost predicate DistinctWithin(f: Contribution) {
    forall m, i, j :: 0 <= i < j < |f(m)| ==> f(m)[i].handler != f(m)[j].handler
  }

  /** The contributions of several manifests, one after the other
      (`SelectMany`, lines 225-243). */
  function Concat(ms: seq<ModuleManifest>, f: Contribution): seq<LazyRoute> {
    if |ms| == 0 then [] else f(ms[0]) + Concat(ms[1..], f)
  }

  /** The concatenated handlers serve exactly what the manifests' own
      handlers serve. */
  lemma {:induction false} ConcatServes(ms: seq<ModuleManifest>, f: Contribution, h: LazyRouteHandler, route: string)
    ensures Serves(Concat(ms, f), h, route) <==> exists m :: m in ms && Serves(f(m), h, route)
  {
    if |ms| > 0 {
      ConcatServes(ms[1..], f, h, route);
      ServesConcat(f(ms[0]), Concat(ms[1..], f), h, route);
      assert ms == [ms[0]] + ms[1..];
      assert forall m :: m in ms <==> m == ms[0] || m in ms[1..];
    }
  }

  /** Every handler of the concatenation belongs to one of the manifests. */
  lemma {:induction false} ConcatOwner(ms: seq<ModuleManifest>, f: Contribution, i: nat)
    requires OwnedBy(f)
    requires i < |Concat(ms, f)|
    ensures exists m :: m in ms && m.moduleName == Concat(ms, f)[i].handler.moduleName
  {
    assert |ms| > 0;
    var head := f(ms[0]);
    var tail := Concat(ms[1..], f);
    assert Concat(ms, f) == head + tail;
    if i < |head| {
      assert Concat(ms, f)[i] == head[i];
      assert ms[0] in ms;
    } else {
      assert Concat(ms, f)[i] == tail[i - |head|];
      ConcatOwner(ms[1..], f, i - |head|);
      var m :| m in ms[1..] && m.moduleName == tail[i - |head|].handler.moduleName;
      assert m in ms;
    }
  }

  /** Manifests of distinct modules contribute distinct handlers. */
  lemma {:induction false} ConcatDistinctAt(ms: seq<ModuleManifest>, f: Contribution, i: nat, j: nat)
    requires OwnedBy(f) && DistinctWithin(f)
    requires Sequences.DistinctKeys(ms, NameOf)
    requires i < j < |Concat(ms, f)|
    ensures Concat(ms, f)[i].handler != Concat(ms, f)[j].handler
  {
    assert |ms| > 0;
    var head := f(ms[0]);
    var tail := Concat(ms[1..], f);
    var r := Concat(ms, f);
    assert r == head + tail;
    if j < |head| {
      assert r[i] == head[i] && r[j] == head[j];
    } else if i < |head| {
      assert r[i] == head[i] && r[j] == tail[j - |head|];
      ConcatOwner(ms[1..], f, j - |head|);
      var m :| m in ms[1..] && m.moduleName == tail[j - |head|].handler.moduleName;
      var k :| 0 <= k < |ms[1..]| && ms[1..][k] == m;
      assert NameOf(ms[0]) != NameOf(ms[k + 1]);
    } else {
      assert r[i] == tail[i - |head|] && r[j] == tail[j - |head|];
      assert Sequences.DistinctKeys(ms[1..], NameOf) by {
        forall a, b | 0 <= a < b < |ms[1..]|
          ensures NameOf(ms[1..][a]) != NameOf(ms[1..][b])
        {
          assert ms[1..][a] == ms[a + 1] && ms[1..][b] == ms[b + 1];
        }
      }
      ConcatDistinctAt(ms[1..], f, i - |head|, j - |head|);
    }
  }

  /** Every handler of the concatenation is one of a manifest's. */
  lemma {:induction false} ConcatMember(ms: seq<ModuleManifest>, f: Contribution, i: nat)
    requires i < |Concat(ms, f)|
    ensures exists m :: m in ms && Concat(ms, f)[i] in f(m)
  {
    assert |ms| > 0;
    var head := f(ms[0]);
    var tail := Concat(ms[1..], f);
    assert Concat(ms, f) == head + tail;
    if i < |head| {
      assert Concat(ms, f)[i] == head[i];
      assert ms[0] in ms;
    } else {
      assert Concat(ms, f)[i] == tail[i - |head|];
      ConcatMember(ms[1..], f, i - |head|);
      var m :| m in ms[1..] && tail[i - |head|] in f(m);
      assert m in ms;
    }
  }

  /** A manifest contributes only handlers of its own module, each once and
      each with a route. */
  lemma RoutesOfManifestIsWellBehaved()
    ensures OwnedBy(RoutesOfManifest) && DistinctWithin(RoutesOfManifest)
    ensures forall m, i :: 0 <= i < |RoutesOfManifest(m)| ==> |RoutesOfManifest(m)[i].routes| > 0
  {
  }

  lemma ServesConcat(a: seq<LazyRoute>, b: seq<LazyRoute>, h: LazyRouteHandler, route: string)
    ensures Serves(a + b, h, route) <==> Serves(a, h, route) || Serves(b, h, route)
  {
    var ab := a + b;
    if Serves(ab, h, route) {
      var i :| 0 <= i < |ab| && ab[i].handler == h && route in ab[i].routes;
      if i >= |a| {
        assert ab[i] == b[i - |a|];
      }
    }
    if Serves(a, h, route) {
      var i :| 0 <= i < |a| && a[i].handler == h && route in a[i].routes;
      assert ab[i] == a[i];
    }
    if Serves(b, h, route) {
      var i :| 0 <= i < |b| && b[i].handler == h && route in b[i].routes;
      assert ab[i + |a|] == b[i];
      assert ab[i + |a|].handler == h && route in ab[i + |a|].routes;
    }
  }

  /** `GetLazyRoutes` (lines 220-250): the handlers of the first manifest
      per module that has a `Routes` section. A handler serves a route exactly
      when one of those manifests declares it for that module and page type;
      no two handlers share a module and a type; none is without routes. */
  function GetLazyRoutes(ms: seq<ModuleManifest>): (r: seq<LazyRoute>)
    ensures forall i :: 0 <= i < |r| ==> |r[i].routes| > 0
    ensures forall i, j :: 0 <= i < j < |r| ==> r[i].handler != r[j].handler
    ensures forall h, route :: Serves(r, h, route) <==> exists m :: m in WithSection(ms, "Routes") && Declares(m, h, route)
  {
    var with := WithSection(ms, "Routes");
    var r := Concat(with, RoutesOfManifest);
    ManifestRoutesAreNotEmpty(with);
    ManifestHandlersAreDistinct(with);
    ManifestRoutesServeDeclarations(with);
    r
  }

  lemma ManifestRoutesAreNotEmpty(ms: seq<ModuleManifest>)
    ensures forall i :: 0 <= i < |Concat(ms, RoutesOfManifest)| ==> |Concat(ms, RoutesOfManifest)[i].routes| > 0
  {
    var r := Concat(ms, RoutesOfManifest);
    RoutesOfManifestIsWellBehaved();
    forall i | 0 <= i < |r|
      ensures |r[i].routes| > 0
    {
      ConcatMember(ms, RoutesOfManifest, i);
      var m :| m in ms && r[i] in RoutesOfManifest(m);
      var k :| 0 <= k < |RoutesOfManifest(m)| && RoutesOfManifest(m)[k] == r[i];
    }
  }

  lemma ManifestHandlersAreDistinct(ms: seq<ModuleManifest>)
    requires Sequences.DistinctKeys(ms, NameOf)
    ensures forall i, j :: 0 <= i < j < |Concat(ms, RoutesOfManifest)| ==>
              Concat(ms, RoutesOfManifest)[i].handler != Concat(ms, RoutesOfManifest)[j].handler
  {
    var r := Concat(ms, RoutesOfManifest);
    RoutesOfManifestIsWellBehaved();
    forall i, j | 0 <= i < j < |r|
      ensures r[i].handler != r[j].handler
    {
      ConcatDistinctAt(ms, RoutesOfManifest, i, j);
    }
  }

  lemma ManifestRoutesServeDeclarations(ms: seq<ModuleManifest>)
    ensures forall h, route :: Serves(Concat(ms, RoutesOfManifest), h, route) <==> exists m :: m in ms && Declares(m, h, route)
  {
    forall h, route
      ensures Serves(Concat(ms, RoutesOfManifest), h, route) <==> exists m :: m in ms && Declares(m, h, route)
    {
      ConcatServes(ms, RoutesOfManifest, h, route);
      forall m
        ensures Serves(RoutesOfManifest(m), h, route) <==> Declares(m, h, route)
      {
        ManifestServesItsEntries(m, h, route);
      }
    }
  }

  /** Every route served is non-blank, as line 232 demands. */
  lemma ServedRoutesAreNotBlank(ms: seq<ModuleManifest>, h: LazyRouteHandler, route: string)
    requires Serves(GetLazyRoutes(ms), h, route)
    ensures !IsBlank(route) && !IsBlank(h.typeFullName)
  {
  }

  /** Everything `LazyRouter` keeps between renders, for this model. */
  datatype Router = Router(isFirstRender: bool, additional: Option<seq<Assembly>>, rendered: seq<Screen>)

  /** The render fragments drawn: `Found` with a page type, `Loading` with a
      module name or `null`, and `NotFound`. */
  datatype Screen = FoundScreen(typeFullName: string) | LoadingScreen(moduleName: Option<string>) | NotFoundScreen

  /** `Render` (lines 302-306). */
  function Render(s: Router, screen: Screen): (u: Router)
    ensures u.rendered == s.rendered + [screen] && !u.isFirstRender && u.additional == s.additional
  {
    Router(false, s.additional, s.rendered + [screen])
  }

  /** A handler the route table may find: a page type, which may not be a
      component, or a lazy handler. */
  datatype Handler = PageType(typeFullName: string, isComponent: bool) | Lazy(lazy: LazyRouteHandler)

  /** How a navigation ends: drawn, a module load started, a full browser
      load of the location, or an `InvalidOperationException`. */
  datatype Navigation = Shown | LoadModule(moduleName: string) | BrowserLoad | NotAComponent

  /** The route table: the handler for a path's segments, if any. */
  type RouteTable = seq<string> -> Option<Handler>

  /** Lines 254-257: the handler the table finds for the location once its
      query and fragment are cut off and its path is split into segments. */
  function HandlerFor(relative: string, table: RouteTable, unescape: string -> string): Option<Handler> {
    table(RouteContexts.NewContext<Handler, ()>(StringUntilAny(relative, QueryOrHashStart), unescape).segments)
  }

  /** The fragment drawn last, if any. */
  function LastScreen(u: Router): Option<Screen> {
    if |u.rendered| == 0 then None else Some(u.rendered[|u.rendered| - 1])
  }

  /** `PerformNavigationAsync` (lines 252-300), once the route table has
      given its answer for the location: a component page is drawn with
      `Found`; a lazy handler starts its module's load; without a handler
      `Loading(null)` is drawn before the first render and `NotFound` after
      it, or, when the navigation was intercepted, the browser loads the
      location; a page type that is not a component throws. Nothing but
      `Shown` draws anything, and it draws exactly one fragment. */
  function NavigateWith(s: Router, handler: Option<Handler>, intercepted: bool): (r: (Router, Navigation))
    ensures r.1 != Shown ==> r.0 == s
    ensures r.1 == Shown ==> LastScreen(r.0).Some? && r.0 == Render(s, LastScreen(r.0).value)
    ensures r.1 == Shown && LastScreen(r.0) == Some(LoadingScreen(None)) ==>
              s.isFirstRender && !intercepted && handler.None?
    ensures r.1 == Shown && LastScreen(r.0) == Some(NotFoundScreen) ==>
              !s.isFirstRender && !intercepted && handler.None?
    ensures r.1 == Shown && LastScreen(r.0).value.FoundScreen? ==>
              handler == Some(PageType(LastScreen(r.0).value.typeFullName, true))
    ensures r.1.LoadModule? <==> handler.Some? && handler.value.Lazy?
    ensures r.1.LoadModule? ==> r.1.moduleName == handler.value.lazy.moduleName
    ensures r.1 == NotAComponent <==> handler.Some? && handler.value.PageType? && !handler.value.isComponent
    ensures r.1 == BrowserLoad <==> handler.None? && intercepted
  {
    match handler
    case Some(PageType(t, isComponent)) =>
      if !isComponent then (s, NotAComponent) else (Render(s, FoundScreen(t)), Shown)
    case Some(Lazy(h)) => (s, LoadModule(h.moduleName))
    case None =>
      if !intercepted then (Render(s, if s.isFirstRender then LoadingScreen(None) else NotFoundScreen), Shown)
      else (s, BrowserLoad)
  }

  /** A navigation to a base-relative location. */
  function Navigate(s: Router, relative: string, intercepted: bool, table: RouteTable, unescape: string -> string): (Router, Navigation) {
    NavigateWith(s, HandlerFor(relative, table, unescape), intercepted)
  }

  /** The query string and the fragment play no part in routing. */
  lemma QueryAndFragmentAreIgnored(s: Router, path: string, c: char, tail: string, intercepted: bool,
                                   table: RouteTable, unescape: string -> string)
    requires forall k :: 0 <= k < |path| ==> path[k] !in QueryOrHashStart
    requires c in QueryOrHashStart
    ensures Navigate(s, path + [c] + tail, intercepted, table, unescape) == Navigate(s, path, intercepted, table, unescape)
  {
    StringUntilAnyIgnoresTail(path, c, tail, QueryOrHashStart);
    assert StringUntilAny(path, QueryOrHashStart) == path;
  }

  /** When no handler is found and navigation is not intercepted, the
      router shows `Loading(null)` until its first render and `NotFound`
      after. */
  lemma UnmatchedPathScreen(s: Router, relative: string, table: RouteTable, unescape: string -> string)
    requires HandlerFor(relative, table, unescape).None?
    ensures Navigate(s, relative, false, table, unescape).0
              == Render(s, if s.isFirstRender then LoadingScreen(None) else NotFoundScreen)
    ensures Navigate(s, relative, true, table, unescape) == (s, BrowserLoad)
  {
  }

  /** `AdditionalAssemblies` with `assembly` appended (lines 186-188). */
  function Append(additional: Option<seq<Assembly>>, assembly: Assembly): (r: Option<seq<Assembly>>)
    ensures r.Some? && |r.value| >= 1 && r.value[|r.value| - 1] == assembly
    ensures additional.Some? ==> r.value[..|r.value| - 1] == additional.value
    ensures additional.None? ==> r.value == [assembly]
  {
    match additional
    case None => Some([assembly])
    case Some(xs) => Some(xs + [assembly])
  }

  /** The assemblies the route table is built from (lines 195-197 and
      208-210): the application assembly, then the additional ones. */
  function TableAssemblies(app: Assembly, additional: Option<seq<Assembly>>): (r: seq<Assembly>)
    ensures |r| >= 1 && r[0] == app
    ensures forall a :: a in r <==> a == app || (additional.Some? && a in additional.value)
  {
    [app] + additional.GetOr([])
  }

  /** How `PerformModuleLoadAsync` ends: the routes are rebuilt with the
      module's assembly, it throws, or the load never completes. */
  datatype ModuleLoad = RoutesRebuilt(assembly: Assembly) | LoadThrew | LoadPending

  /** `PerformModuleLoadAsync` (lines 158-191): a module already loaded is
      used as is; otherwise `Loading(moduleName)` is drawn while it loads, and
      a load that yields `null` throws. */
  function PerformModuleLoad(s: Router, moduleName: string, loaded: Option<Assembly>, load: LoadReply): (r: (Router, ModuleLoad))
    ensures loaded.Some? ==> r == (s.(additional := Append(s.additional, loaded.value)), RoutesRebuilt(loaded.value))
    ensures loaded.None? ==> r.0.rendered == s.rendered + [LoadingScreen(Some(moduleName))] && !r.0.isFirstRender
    ensures loaded.None? ==> (r.1 == LoadThrew <==> load == Loaded(None) || load == LoadRaised)
    ensures r.1.RoutesRebuilt? ==> r.0.additional == Append(s.additional, r.1.assembly)
                                   && (loaded == Some(r.1.assembly) || (loaded.None? && load == Loaded(Some(r.1.assembly))))
    ensures !r.1.RoutesRebuilt? ==> r.0.additional == s.additional
  {
    if loaded.Some? then (s.(additional := Append(s.additional, loaded.value)), RoutesRebuilt(loaded.value))
    else
      var drawn := Render(s, LoadingScreen(Some(moduleName)));
      match load
      case Loaded(Some(a)) => (drawn.(additional := Append(drawn.additional, a)), RoutesRebuilt(a))
      case Loaded(None) => (drawn, LoadThrew)
      case LoadRaised => (drawn, LoadThrew)
      case LoadHangs => (drawn, LoadPending)
  }

  /** After a module load, the route table is built from every assembly it
      was built from before, plus the module's. */
  lemma LoadedModuleJoinsTheTable(s: Router, app: Assembly, moduleName: string, loaded: Option<Assembly>, load: LoadReply)
    ensures var r := PerformModuleLoad(s, moduleName, loaded, load);
            r.1.RoutesRebuilt? ==>
              && r.1.assembly in TableAssemblies(app, r.0.additional)
              && forall a :: a in TableAssemblies(app, s.additional) ==> a in TableAssemblies(app, r.0.additional)
  {
    var r := PerformModuleLoad(s, moduleName, loaded, load);
    if r.1.RoutesRebuilt? {
      var after := r.0.additional.value;
      assert after[|after| - 1] in after;
      if s.additional.Some? {
        forall a | a in s.additional.value
          ensures a in after
        {
          var k :| 0 <= k < |s.additional.value| && s.additional.value[k] == a;
          assert after[k] == a;
        }
      }
    }
  }
}
