/** The manifest side of module discovery: `ManifestLocator` names one
    `_lazy.json` per module hint, and `ManifestRepository` reads the ones it
    has not read yet, parses them and keeps the first manifest seen for every
    module name.

    JSON is abstract: a parsed file is its top-level properties in document
    order, and a value is an object, an array, a string, another primitive
    (a number or a boolean, carried with its text) or `null`.
    Reading a file and parsing its text are parameters (`Sources`); a parser
    that throws answers `None`. The repository is sequential: a fetch runs to
    its end before anything else happens, so the `_fetching` task can only be
    observed while set when an earlier fetch threw and never cleared it. */
module Manifests {
  import opened Wrappers
  import Sequences
  import opened Providers

  /** A `JToken`, as far as the manifests are concerned. */
  datatype Json =
    | JObject(props: seq<(string, Json)>)
    | JArray(items: seq<Json>)
    | JString(value: string)
    | JScalar(text: string)  // a number or boolean, with the text its conversion to `string` gives
    | JOther                 // `null`

  /** A parsed `_lazy.json`: the top-level properties, in document order. */
  type Document = seq<(string, Json)>

  /** `ModuleManifest`: the module name and the sections of its object. */
  datatype ModuleManifest = ModuleManifest(moduleName: string, sections: seq<(string, Json)>)

  /** `ManifestSections.ContainsKey(key)` and `ManifestSections[key]`. */
  function Section(m: ModuleManifest, key: string): (r: Option<Json>)
    ensures r.Some? <==> exists k :: 0 <= k < |m.sections| && m.sections[k].0 == key
    ensures r.Some? ==> (key, r.value) in m.sections
  {
    Lookup(m.sections, key)
  }

  /** Property `k` is the first one named `key`. */
  predicate FirstNamed(props: seq<(string, Json)>, key: string, k: int) {
    0 <= k < |props| && props[k].0 == key && forall j :: 0 <= j < k ==> props[j].0 != key
  }

  /** The value of the first property named `key`. */
  function Lookup(props: seq<(string, Json)>, key: string): (r: Option<Json>)
    ensures r.Some? <==> exists k :: 0 <= k < |props| && props[k].0 == key
    ensures r.Some? ==> (key, r.value) in props
    ensures forall k :: FirstNamed(props, key, k) ==> r == Some(props[k].1)
  {
    if |props| == 0 then None
    else if props[0].0 == key then Some(props[0].1)
    else
      var r := Lookup(props[1..], key);
      assert forall k :: 0 < k < |props| ==> props[k] == props[1..][k - 1];
      assert r.Some? ==> exists k :: 0 <= k < |props| && props[k].0 == key by {
        if r.Some? {
          var k :| 0 <= k < |props[1..]| && props[1..][k].0 == key;
          assert props[k + 1].0 == key;
        }
      }
      assert forall k :: FirstNamed(props, key, k) ==> FirstNamed(props[1..], key, k - 1);
      r
  }

  /** `o.Value<string?>(key)`: a string under `key` as it is, a number or a
      boolean converted to its text, and `null` when the property is missing
      or `null`. An object or an array under `key` makes the conversion
      throw; here it reads as `null`. */
  function StringValue(o: seq<(string, Json)>, key: string): (r: Option<string>)
    ensures r.Some? ==> (key, JString(r.value)) in o || (key, JScalar(r.value)) in o
    ensures forall k :: FirstNamed(o, key, k) ==> (r.None? <==> !o[k].1.JString? && !o[k].1.JScalar?)
    ensures forall k :: FirstNamed(o, key, k) && o[k].1.JString? ==> r == Some(o[k].1.value)
    ensures (forall k :: 0 <= k < |o| ==> o[k].0 != key) ==> r.None?
  {
    match Lookup(o, key)
    case Some(JString(s)) => Some(s)
    case Some(JScalar(s)) => Some(s)
    case _ => None
  }

  /** `token.Children<JObject>()`: the objects among an array's items; no
      other token has object children. */
  function ObjectChildren(t: Json): (r: seq<seq<(string, Json)>>)
    ensures forall o :: o in r <==> t.JArray? && JObject(o) in t.items
  {
    if t.JArray? then ObjectsAmong(t.items) else []
  }

  function ObjectsAmong(items: seq<Json>): (r: seq<seq<(string, Json)>>)
    ensures forall o :: o in r <==> JObject(o) in items
  {
    if |items| == 0 then []
    else
      assert items == [items[0]] + items[1..];
      (if items[0].JObject? then [items[0].props] else []) + ObjectsAmong(items[1..])
  }

  function NameOf(m: ModuleManifest): string {
    m.moduleName
  }

  function HasSection(key: string): ModuleManifest -> bool {
    m => Section(m, key).Some?
  }

  /** `manifests.Where(m => m.ManifestSections.ContainsKey(key)).DistinctBy(m => m.ModuleName)`,
      the selection `Lazy` and `LazyRouter` start from: the manifests with
      the section, the first one per module name, in order. */
  function WithSection(ms: seq<ModuleManifest>, key: string): (r: seq<ModuleManifest>)
    ensures forall m :: m in r ==> m in ms && Section(m, key).Some?
    ensures Sequences.DistinctKeys(r, NameOf)
    ensures forall m :: m in ms && Section(m, key).Some? ==> m.moduleName in Sequences.Keys(r, NameOf)
    ensures r == Sequences.FirstsOfKeys(Sequences.Filter(ms, HasSection(key)), NameOf, |Sequences.Filter(ms, HasSection(key))|)
  {
    var with := Sequences.Filter(ms, HasSection(key));
    Sequences.DistinctByKeepsFirsts(with, NameOf);
    var r := Sequences.DistinctBy(with, NameOf);
    assert forall m :: m in ms && Section(m, key).Some? ==> m.moduleName in Sequences.Keys(r, NameOf) by {
      forall m | m in ms && Section(m, key).Some?
        ensures m.moduleName in Sequences.Keys(r, NameOf)
      {
        assert HasSection(key)(m);
        assert m in with;
        assert NameOf(m) in Sequences.Keys(with, NameOf);
      }
    }
    r
  }

  /** The repository already holds one manifest per module name, so the
      first-per-module step of `WithSection` drops nothing from what it
      returns. */
  lemma RepositoryNeedsNoDedup(ms: seq<ModuleManifest>, key: string)
    requires UniqueNames(ms)
    ensures WithSection(ms, key) == Sequences.Filter(ms, HasSection(key))
  {
    assert Sequences.DistinctKeys(ms, NameOf);
    Sequences.FilterKeepsDistinctKeys(ms, HasSection(key), NameOf);
    Sequences.DistinctByOfDistinct(Sequences.Filter(ms, HasSection(key)), NameOf);
    Sequences.DistinctByKeepsFirsts(Sequences.Filter(ms, HasSection(key)), NameOf);
  }

  /** `$"_content/{hint}/_lazy.json"`. */
  function ManifestPath(hint: string): string {
    "_content/" + hint + "/_lazy.json"
  }

  /** `ManifestLocator.GetManifestPaths`: one path per hint, in hint order;
      two paths coincide exactly where their hints do. */
  function GetManifestPaths(hints: seq<string>): (r: seq<string>)
    ensures |r| == |hints|
    ensures forall i :: 0 <= i < |hints| ==> r[i] == ManifestPath(hints[i])
    ensures forall i, j :: 0 <= i < |r| && 0 <= j < |r| ==> (r[i] == r[j] <==> hints[i] == hints[j])
  {
    var r := seq(|hints|, i requires 0 <= i < |hints| => ManifestPath(hints[i]));
    forall i, j | 0 <= i < |r| && 0 <= j < |r| && r[i] == r[j]
      ensures hints[i] == hints[j]
    {
      HintOfPath(hints[i]);
      HintOfPath(hints[j]);
    }
    r
  }

  /** The hint is what a manifest path holds between its fixed prefix and
      suffix, so the path determines the hint. */
  lemma HintOfPath(hint: string)
    ensures var p := ManifestPath(hint); |p| == |hint| + 20 && p[9..|p| - 11] == hint
  {
  }

  /** The names of the modules held. */
  function Names(modules: seq<ModuleManifest>): set<string> {
    set m | m in modules :: m.moduleName
  }

  /** `_loadedModules.TryGetValue(name)`. */
  function Find(modules: seq<ModuleManifest>, name: string): (r: Option<ModuleManifest>)
    ensures r.Some? <==> name in Names(modules)
    ensures r.Some? ==> r.value in modules && r.value.moduleName == name
  {
    if |modules| == 0 then None
    else if modules[0].moduleName == name then Some(modules[0])
    else
      var r := Find(modules[1..], name);
      assert modules == [modules[0]] + modules[1..];
      assert Names(modules) == {modules[0].moduleName} + Names(modules[1..]);
      r
  }

  lemma {:induction false} FindAppend(modules: seq<ModuleManifest>, m: ModuleManifest, name: string)
    ensures Find(modules + [m], name)
         == if name in Names(modules) then Find(modules, name)
            else if m.moduleName == name then Some(m) else None
  {
    if |modules| > 0 {
      assert (modules + [m])[1..] == modules[1..] + [m];
      assert modules == [modules[0]] + modules[1..];
      assert Names(modules) == {modules[0].moduleName} + Names(modules[1..]);
      FindAppend(modules[1..], m, name);
    } else {
      assert Names(modules) == {};
    }
  }

  /** `_loadedPaths` and `_loadedModules` are dictionaries: no path and no
      module name twice. */
  predicate Unique(paths: seq<string>) {
    forall i, j :: 0 <= i < j < |paths| ==> paths[i] != paths[j]
  }

  predicate UniqueNames(modules: seq<ModuleManifest>) {
    forall i, j :: 0 <= i < j < |modules| ==> modules[i].moduleName != modules[j].moduleName
  }

  /** Reference semantics of one file's modules: the props of the first
      top-level property named `name` whose value is an object. */
  function FirstObject(doc: Document, name: string): Option<seq<(string, Json)>> {
    if |doc| == 0 then None
    else if doc[0].0 == name && doc[0].1.JObject? then Some(doc[0].1.props)
    else FirstObject(doc[1..], name)
  }

  function ManifestOf(name: string, props: Option<seq<(string, Json)>>): Option<ModuleManifest> {
    if props.Some? then Some(ModuleManifest(name, props.value)) else None
  }

  /** Lines 98-106: skip a value that is not an object, otherwise
      `_loadedModules.TryAdd(name, new ModuleManifest(name, value))`. */
  function AddModule(modules: seq<ModuleManifest>, name: string, value: Json): (r: seq<ModuleManifest>)
    ensures modules <= r
    ensures UniqueNames(modules) ==> UniqueNames(r)
    ensures forall n :: Find(r, n)
                     == if n in Names(modules) then Find(modules, n)
                        else if n == name && value.JObject? then Some(ModuleManifest(name, value.props))
                        else None
  {
    if value.JObject? && name !in Names(modules) then
      var m := ModuleManifest(name, value.props);
      forall n
        ensures Find(modules + [m], n)
             == if n in Names(modules) then Find(modules, n)
                else if n == name && value.JObject? then Some(m) else None
      {
        FindAppend(modules, m, n);
      }
      assert forall i :: 0 <= i < |modules| ==> modules[i].moduleName in Names(modules);
      modules + [m]
    else
      modules
  }

  /** All the top-level properties of one file, in order. A module already
      held keeps its manifest; a new one gets the first object of its name. */
  function AddDocument(modules: seq<ModuleManifest>, doc: Document): (r: seq<ModuleManifest>)
    ensures modules <= r
    ensures UniqueNames(modules) ==> UniqueNames(r)
    ensures forall n :: Find(r, n)
                     == if n in Names(modules) then Find(modules, n) else ManifestOf(n, FirstObject(doc, n))
    decreases |doc|
  {
    if |doc| == 0 then modules
    else
      var next := AddModule(modules, doc[0].0, doc[0].1);
      var r := AddDocument(next, doc[1..]);
      assert forall n :: n in Names(next) <==> n in Names(modules) || (n == doc[0].0 && doc[0].1.JObject?) by {
        forall n
          ensures n in Names(next) <==> n in Names(modules) || (n == doc[0].0 && doc[0].1.JObject?)
        {
          assert Find(next, n).Some? <==> n in Names(next);
        }
      }
      r
  }

  /** `_loadedModules.Values`, in the order the modules were added. */
  function Flatten(docs: seq<Document>): Document {
    if |docs| == 0 then [] else docs[0] + Flatten(docs[1..])
  }

  /** Lines 92-94: every non-null file is parsed before any module is added,
      so one file that does not parse keeps the modules of all of them out. */
  function ParseAll(parse: Bytes -> Option<Document>, data: seq<Bytes>): (r: Option<seq<Document>>)
    ensures r.None? <==> exists i :: 0 <= i < |data| && parse(data[i]).None?
    ensures r.Some? ==> |r.value| == |data| && forall i :: 0 <= i < |data| ==> parse(data[i]) == Some(r.value[i])
  {
    if |data| == 0 then Some([])
    else
      match parse(data[0])
      case None => None
      case Some(d) =>
        var rest := ParseAll(parse, data[1..]);
        assert forall i :: 1 <= i < |data| ==> data[i] == data[1..][i - 1];
        if rest.None? then
          var i :| 0 <= i < |data[1..]| && parse(data[1..][i]).None?;
          assert parse(data[i + 1]).None?;
          None
        else
          Some([d] + rest.value)
  }

  /** The repository's collaborators: the module hints behind
      `GetManifestPaths`, the file reader (`ReadBytesOrNullAsync`) and
      `JObject.Parse(Encoding.UTF8.GetString(bytes))`. */
  datatype Sources = Sources(hints: seq<string>,
                             read: string -> Option<Bytes>,
                             parse: Bytes -> Option<Document>)

  /** The paths read so far (whatever they gave), the modules held, and
      whether `_fetching` is set. */
  datatype Repository = Repository(loadedPaths: seq<string>, modules: seq<ModuleManifest>, fetching: bool)

  predicate Valid(repo: Repository) {
    Unique(repo.loadedPaths) && UniqueNames(repo.modules)
  }

  /** A new repository holds nothing. */
  const Empty := Repository([], [], false)

  /** The manifest paths not read yet, each once (line 74). */
  function NewPaths(repo: Repository, src: Sources): (r: seq<string>)
    ensures Unique(r)
    ensures forall p :: p in r <==> p in GetManifestPaths(src.hints) && p !in repo.loadedPaths
  {
    Sequences.Except(GetManifestPaths(src.hints), repo.loadedPaths)
  }

  /** What reading every new path gives, in path order: the bytes of each
      file, or `null` when it is missing. */
  function ReadNew(repo: Repository, src: Sources): (r: seq<Option<Bytes>>)
    ensures |r| == |NewPaths(repo, src)|
    ensures forall i :: 0 <= i < |r| ==> r[i] == src.read(NewPaths(repo, src)[i])
  {
    var unread := NewPaths(repo, src);
    seq(|unread|, i requires 0 <= i < |unread| => src.read(unread[i]))
  }

  /** `ReadAllManifests`: read every new path, record all of them (lines
      87-90), parse the files that were found, then add their modules. The
      flag says whether parsing threw. */
  function ReadAll(repo: Repository, src: Sources): (r: (Repository, bool))
  {
    var unread := NewPaths(repo, src);
    var data := ReadNew(repo, src);
    var recorded := repo.(loadedPaths := repo.loadedPaths + unread);
    match ParseAll(src.parse, Sequences.NotNull(data))
    case None => (recorded, false)
    case Some(docs) => (recorded.(modules := AddDocument(repo.modules, Flatten(docs))), true)
  }

  /** How a `FetchAllManifests` call ends: it completed; it threw (a file did
      not parse), leaving `_fetching` set; or it awaits a `_fetching` task
      that will never complete. */
  datatype Fetch = Fetched | Threw | Blocked

  /** `FetchAllManifests`. */
  function FetchAll(repo: Repository, src: Sources): (r: (Repository, Fetch))
    ensures repo.fetching ==> r == (repo, Blocked)
    ensures !repo.fetching ==> r.0.loadedPaths == repo.loadedPaths + NewPaths(repo, src)
    ensures !repo.fetching ==> forall p :: p in GetManifestPaths(src.hints) ==> p in r.0.loadedPaths
    ensures repo.modules <= r.0.modules
    ensures Valid(repo) ==> Valid(r.0)
    ensures r.1 == Threw ==> r.0.fetching && r.0.modules == repo.modules
    ensures r.1 == Fetched ==> !r.0.fetching
    ensures r.1 == Blocked <==> repo.fetching
    ensures !repo.fetching ==> (r.1 == Threw <==> ParseAll(src.parse, Sequences.NotNull(ReadNew(repo, src))).None?)
  {
    if repo.fetching then (repo, Blocked)
    else
      var unread := NewPaths(repo, src);
      var (after, ok) := ReadAll(repo.(fetching := true), src);
      assert Unique(repo.loadedPaths) ==> Unique(repo.loadedPaths + unread) by {
        forall i, j | 0 <= i < j < |repo.loadedPaths + unread| && Unique(repo.loadedPaths)
          ensures (repo.loadedPaths + unread)[i] != (repo.loadedPaths + unread)[j]
        {
          if j >= |repo.loadedPaths| {
            assert (repo.loadedPaths + unread)[j] == unread[j - |repo.loadedPaths|];
            if i < |repo.loadedPaths| {
              assert (repo.loadedPaths + unread)[i] in repo.loadedPaths;
            }
          }
        }
      }
      if ok then (after.(fetching := false), Fetched) else (after, Threw)
  }

  /** How a repository call ends for its caller. */
  datatype Reply<T> = Returned(value: T) | Raised | Hangs

  function ReplyOf<T>(f: Fetch, value: T): Reply<T> {
    match f
    case Fetched => Returned(value)
    case Threw => Raised
    case Blocked => Hangs
  }

  /** `GetAllAsync`: fetch, then every module held. */
  function GetAll(repo: Repository, src: Sources): (r: (Repository, Reply<seq<ModuleManifest>>))
    ensures r.0 == FetchAll(repo, src).0
    ensures r.1.Returned? ==> r.1.value == r.0.modules && !r.0.fetching
    ensures r.1.Hangs? <==> repo.fetching
  {
    var (next, f) := FetchAll(repo, src);
    (next, ReplyOf(f, next.modules))
  }

  /** `GetByModuleNameAsync`: a module already held is returned without
      fetching; otherwise fetch and look again, `null` when still absent. */
  function GetByModuleName(repo: Repository, src: Sources, name: string): (r: (Repository, Reply<Option<ModuleManifest>>))
    ensures name in Names(repo.modules) ==> r == (repo, Returned(Find(repo.modules, name)))
    ensures name !in Names(repo.modules) ==> r.0 == FetchAll(repo, src).0
    ensures r.1.Returned? && r.1.value.Some? ==> r.1.value.value in r.0.modules && r.1.value.value.moduleName == name
    ensures r.1.Returned? && r.1.value.None? ==> name !in Names(r.0.modules)
  {
    var cached := Find(repo.modules, name);
    if cached.Some? then (repo, Returned(cached))
    else
      var (next, f) := FetchAll(repo, src);
      (next, ReplyOf(f, Find(next.modules, name)))
  }

  /** A module held before a fetch keeps its manifest; a new one gets the
      first object of its name across the files read, in path order. */
  lemma FirstManifestWins(repo: Repository, src: Sources, name: string)
    requires !repo.fetching
    ensures var (next, f) := FetchAll(repo, src);
            var unread := NewPaths(repo, src);
            var data := ReadNew(repo, src);
            f == Fetched ==>
              Find(next.modules, name)
              == if name in Names(repo.modules) then Find(repo.modules, name)
                 else ManifestOf(name, FirstObject(Flatten(ParseAll(src.parse, Sequences.NotNull(data)).value), name))
  {
  }

  /** Paths already read are never read again: the reader's answer on them
      does not matter. */
  lemma LoadedPathsAreNotReread(repo: Repository, src: Sources, read2: string -> Option<Bytes>)
    requires forall p :: p !in repo.loadedPaths ==> src.read(p) == read2(p)
    ensures FetchAll(repo, src) == FetchAll(repo, src.(read := read2))
  {
    var src2 := src.(read := read2);
    var unread := NewPaths(repo.(fetching := true), src);
    assert unread == NewPaths(repo.(fetching := true), src2);
    var data := seq(|unread|, i requires 0 <= i < |unread| => src.read(unread[i]));
    var data2 := seq(|unread|, i requires 0 <= i < |unread| => src2.read(unread[i]));
    assert data == data2 by {
      forall i | 0 <= i < |unread|
        ensures data[i] == data2[i]
      {
        assert unread[i] in unread;
      }
    }
  }

  /** A path whose file is missing is not parsed: when no new path yields
      bytes, the fetch completes whatever the parser would do, and no module
      is added. */
  lemma MissingFilesAreNotParsed(repo: Repository, src: Sources)
    requires !repo.fetching
    requires forall p :: p in NewPaths(repo, src) ==> src.read(p).None?
    ensures FetchAll(repo, src).1 == Fetched
    ensures FetchAll(repo, src).0.modules == repo.modules
  {
    var unread := NewPaths(repo.(fetching := true), src);
    var data := seq(|unread|, i requires 0 <= i < |unread| => src.read(unread[i]));
    forall i | 0 <= i < |data|
      ensures data[i].None?
    {
      assert unread[i] in unread;
    }
    Sequences.NotNullOfNulls(data);
  }

  /** A second fetch after one that completed reads nothing and changes
      nothing. */
  lemma FetchIsIdempotent(repo: Repository, src: Sources)
    requires FetchAll(repo, src).1 == Fetched
    ensures FetchAll(FetchAll(repo, src).0, src) == (FetchAll(repo, src).0, Fetched)
  {
    var next := FetchAll(repo, src).0;
    var unread := NewPaths(next.(fetching := true), src);
    Sequences.ExceptOfCovered(GetManifestPaths(src.hints), next.loadedPaths);
    assert unread == [];
    assert next.loadedPaths + unread == next.loadedPaths;
    var data := seq(|unread|, i requires 0 <= i < |unread| => src.read(unread[i]));
    assert data == [];
    assert Sequences.NotNull(data) == [];
  }

  /** A fetch that threw leaves `_fetching` set for good: every later fetch,
      and every call that needs one, waits forever. */
  lemma FailedParseBlocksForever(repo: Repository, src: Sources, src2: Sources, name: string)
    requires FetchAll(repo, src).1 == Threw
    ensures var next := FetchAll(repo, src).0;
            && FetchAll(next, src2) == (next, Blocked)
            && GetAll(next, src2) == (next, Hangs)
            && (name !in Names(next.modules) ==> GetByModuleName(next, src2, name) == (next, Hangs))
  {
  }
}
