/** Fetching an assembly's bytes: `AssemblyDataProvider` (both revisions) and
    the server and browser providers built on `NetworkDependencyPathFinder`.
    Every provider walks its candidate directories in order and stops at the
    first one that has the `.dll`; the `.pdb` is only asked for while a
    debugger is attached. Reading a file is a parameter `read` that answers
    `None` where the source's reader catches an exception or finds nothing. */
module Providers {
  import opened Wrappers
  import opened Text
  import opened Identity
  import opened ContextTree
  import opened Locators

  newtype byte = b: int | 0 <= b < 256

  type Bytes = seq<byte>

  /** `AssemblyData`: the DLL image and the optional symbols. */
  datatype AssemblyData = AssemblyData(dll: Bytes, pdb: Option<Bytes>)

  /** `dllBytes == null ? null : new AssemblyData(dllBytes, pdbBytes)`. */
  function Assemble(dll: Option<Bytes>, pdb: Option<Bytes>): (r: Option<AssemblyData>)
    ensures r.Some? <==> dll.Some?
    ensures r.Some? ==> r.value.dll == dll.value && r.value.pdb == pdb
  {
    if dll.None? then None else Some(AssemblyData(dll.value, pdb))
  }

  /** The `foreach (var path in paths) { data = ...; if (data != null) return data; }
      return null;` loop every provider shares: the data of the first
      candidate that has any. */
  function FirstData<L>(locs: seq<L>, read: L -> Option<AssemblyData>): (r: Option<AssemblyData>)
    ensures r.None? <==> forall i :: 0 <= i < |locs| ==> read(locs[i]).None?
    ensures r.Some? ==> exists i :: 0 <= i < |locs| && read(locs[i]) == r
                                    && forall j :: 0 <= j < i ==> read(locs[j]).None?
  {
    if |locs| == 0 then None
    else if read(locs[0]).Some? then read(locs[0])
    else
      var rest := FirstData(locs[1..], read);
      assert forall j :: 1 <= j < |locs| ==> locs[j] == locs[1..][j - 1];
      assert rest.Some? ==> exists i :: 0 <= i < |locs| && read(locs[i]) == rest
                                        && forall j :: 0 <= j < i ==> read(locs[j]).None? by {
        if rest.Some? {
          var i :| 0 <= i < |locs| - 1 && read(locs[1..][i]) == rest
                   && forall j :: 0 <= j < i ==> read(locs[1..][j]).None?;
          assert read(locs[i + 1]) == rest;
        }
      }
      rest
  }

  /** Searching `a` and then `b` finds what `a` has, and only otherwise
      what `b` has. */
  lemma {:induction false} FirstDataAppend<L>(a: seq<L>, b: seq<L>, read: L -> Option<AssemblyData>)
    ensures FirstData(a + b, read) == if FirstData(a, read).Some? then FirstData(a, read) else FirstData(b, read)
  {
    if |a| == 0 {
      assert a + b == b;
    } else {
      assert (a + b)[0] == a[0];
      assert (a + b)[1..] == a[1..] + b;
      FirstDataAppend(a[1..], b, read);
    }
  }

  /** `$"{basePath.TrimEnd('/')}/{fileName}"`: how the content file readers
      (FileProviderContentFileReader, NetworkContentFileReader) join a
      directory and a file name. */
  function JoinPath(basePath: string, fileName: string): string {
    TrimEnd(basePath, '/') + "/" + fileName
  }

  lemma TrimEndNoop(s: string, c: char)
    requires |s| > 0 && s[|s| - 1] != c
    ensures TrimEnd(s, c) == s
  {
  }

  /** The first revision's per-directory read: `{Name}.dll`, and `{Name}.pdb`
      when a debugger is attached. */
  function ReadInDirectory(read: string -> Option<Bytes>, debugging: bool, n: AssemblyName, basePath: string): Option<AssemblyData> {
    Assemble(read(JoinPath(basePath, n.name + ".dll")),
             if debugging then read(JoinPath(basePath, n.name + ".pdb")) else None)
  }

  /** The first revision's `GetAssemblyDataAsync`. */
  function LegacyGetAssemblyData(hints: seq<string>, display: AssemblyName -> string, read: string -> Option<Bytes>,
                                 debugging: bool, n: AssemblyName): (r: Option<AssemblyData>)
    ensures r.None? <==> forall p :: p in GetFindBasePaths(hints, n, display) ==> ReadInDirectory(read, debugging, n, p).None?
  {
    FirstData(GetFindBasePaths(hints, n, display), (p: string) => ReadInDirectory(read, debugging, n, p))
  }

  /** The current revision's per-location read: the PDB only while a
      debugger is attached and the location names one. */
  function ReadLocation(read: string -> Option<Bytes>, debugging: bool, loc: AssemblyLocation): Option<AssemblyData> {
    Assemble(read(loc.dllPath),
             if debugging && loc.pdbPath.Some? then read(loc.pdbPath.value) else None)
  }

  /** `ReadLocation` as the function `FirstData` applies to each location. */
  function LocationReader(read: string -> Option<Bytes>, debugging: bool): AssemblyLocation -> Option<AssemblyData> {
    loc => ReadLocation(read, debugging, loc)
  }

  /** The current revision's cache: a `ConcurrentDictionary` keyed by the
      by-name-and-version comparer, kept as the entries in insertion order. */
  type Cache = seq<(AssemblyName, AssemblyData)>

  /** `TryGetValue`: the entry whose name the comparer equates with `n`. */
  function CacheLookup(h: Hashes, cache: Cache, n: AssemblyName): (r: Option<AssemblyData>)
    ensures r.Some? <==> exists i :: 0 <= i < |cache| && NVEquals(h, cache[i].0, n)
    ensures r.Some? ==> exists i :: 0 <= i < |cache| && NVEquals(h, cache[i].0, n) && cache[i].1 == r.value
  {
    if |cache| == 0 then None
    else if NVEquals(h, cache[0].0, n) then Some(cache[0].1)
    else
      assert forall i :: 1 <= i < |cache| ==> cache[i] == cache[1..][i - 1];
      CacheLookup(h, cache[1..], n)
  }

  /** `TryAdd`: adds only when no equal key is present. */
  function CacheTryAdd(h: Hashes, cache: Cache, n: AssemblyName, d: AssemblyData): (r: Cache)
    ensures CacheLookup(h, cache, n).None? ==> r == cache + [(n, d)]
    ensures CacheLookup(h, cache, n).Some? ==> r == cache
  {
    if CacheLookup(h, cache, n).Some? then cache else cache + [(n, d)]
  }

  lemma {:induction false} CacheLookupAppend(h: Hashes, cache: Cache, n: AssemblyName, d: AssemblyData, m: AssemblyName)
    ensures CacheLookup(h, cache + [(n, d)], m)
         == if CacheLookup(h, cache, m).Some? then CacheLookup(h, cache, m)
            else if NVEquals(h, n, m) then Some(d) else None
  {
    if |cache| == 0 {
    } else {
      assert (cache + [(n, d)])[1..] == cache[1..] + [(n, d)];
      CacheLookupAppend(h, cache[1..], n, d, m);
    }
  }

  /** The current revision's `GetAssemblyDataAsync`: a cached answer when the
      cache has one, otherwise the first location with a DLL, remembered. */
  function GetAssemblyData(h: Hashes, cache: Cache, hints: seq<string>, display: AssemblyName -> string,
                           read: string -> Option<Bytes>, debugging: bool, n: AssemblyName): (r: (Cache, Option<AssemblyData>))
    ensures |cache| <= |r.0| && r.0[..|cache|] == cache
    ensures CacheLookup(h, cache, n).Some? ==> r == (cache, CacheLookup(h, cache, n))
    ensures r.1.Some? ==> CacheLookup(h, r.0, n) == r.1
    ensures r.1.None? ==> r.0 == cache
    ensures CacheLookup(h, cache, n).None? ==>
              r.1 == FirstData(GetFindPaths(hints, n, display), LocationReader(read, debugging))
  {
    var hit := CacheLookup(h, cache, n);
    if hit.Some? then (cache, hit)
    else
      var d := FirstData(GetFindPaths(hints, n, display), LocationReader(read, debugging));
      if d.None? then (cache, None)
      else
        CacheLookupAppend(h, cache, n, d.value, n);
        (CacheTryAdd(h, cache, n, d.value), d)
  }

  /** Once found, an assembly's data is served from the cache: asking again,
      under any name the comparer equates with it and whatever the files now
      hold, returns the same data and leaves the cache alone. */
  lemma CachedAnswerIsStable(h: Hashes, cache: Cache, hints: seq<string>, display: AssemblyName -> string,
                             read: string -> Option<Bytes>, read2: string -> Option<Bytes>, debugging: bool,
                             n: AssemblyName, m: AssemblyName)
    requires NVEquals(h, n, m)
    ensures var (c1, d1) := GetAssemblyData(h, cache, hints, display, read, debugging, n);
            d1.Some? ==> GetAssemblyData(h, c1, hints, display, read2, debugging, m) == (c1, d1)
  {
    var (c1, d1) := GetAssemblyData(h, cache, hints, display, read, debugging, n);
    if d1.Some? {
      CacheLookupEquates(h, c1, n, m);
    }
  }

  lemma {:induction false} CacheLookupEquates(h: Hashes, cache: Cache, n: AssemblyName, m: AssemblyName)
    requires NVEquals(h, n, m)
    ensures CacheLookup(h, cache, n) == CacheLookup(h, cache, m)
  {
    if |cache| > 0 {
      CacheLookupEquates(h, cache[1..], n, m);
    }
  }

  /** With an empty cache the two revisions fetch the same data, given
      content readers that join directory and file as the source's readers
      do. */
  lemma {:induction false} ProviderRevisionsAgree(h: Hashes, hints: seq<string>, display: AssemblyName -> string,
                                                  read: string -> Option<Bytes>, debugging: bool, n: AssemblyName)
    ensures GetAssemblyData(h, [], hints, display, read, debugging, n).1
         == LegacyGetAssemblyData(hints, display, read, debugging, n)
  {
    var bases := GetFindBasePaths(hints, n, display);
    var locs := GetFindPaths(hints, n, display);
    LocatorRevisionsAgree(hints, n, display);
    var f := LocationReader(read, debugging);
    var g := (p: string) => ReadInDirectory(read, debugging, n, p);
    forall i | 0 <= i < |bases|
      ensures f(locs[i]) == g(bases[i])
    {
      var b := bases[i];
      assert b[|b| - 1] != '/' by {
        if i < |hints| {
          assert b == ContentPath(hints[i]);
        } else if i == |hints| {
          assert b == ContentPath(display(n));
        } else {
          assert b == FrameworkPath;
        }
      }
      LocationReadsAsDirectory(read, debugging, n, b);
    }
    FirstDataPointwise(locs, bases, f, g);
  }

  /** The location built for a directory not ending with `/` names the files
      the first revision reads in it. */
  lemma LocationReadsAsDirectory(read: string -> Option<Bytes>, debugging: bool, n: AssemblyName, b: string)
    requires |b| > 0 && b[|b| - 1] != '/'
    ensures ReadLocation(read, debugging, CreateAssemblyLocation(b, n)) == ReadInDirectory(read, debugging, n, b)
  {
    TrimEndNoop(b, '/');
    assert JoinPath(b, n.name + ".dll") == b + "/" + n.name + ".dll";
    assert JoinPath(b, n.name + ".pdb") == b + "/" + n.name + ".pdb";
  }

  /** Two searches whose candidates read alike find the same data. */
  lemma {:induction false} FirstDataPointwise<L, M>(a: seq<L>, b: seq<M>, f: L -> Option<AssemblyData>, g: M -> Option<AssemblyData>)
    requires |a| == |b|
    requires forall i :: 0 <= i < |a| ==> f(a[i]) == g(b[i])
    ensures FirstData(a, f) == FirstData(b, g)
  {
    if |a| > 0 {
      assert f(a[0]) == g(b[0]);
      FirstDataPointwise(a[1..], b[1..], f, g);
    }
  }

  /** The server and browser providers' per-directory read:
      `$"{basePath}/{Name}.dll"`, and the `.pdb` when a debugger is attached. */
  function ReadBeside(read: string -> Option<Bytes>, debugging: bool, n: AssemblyName, basePath: string): Option<AssemblyData> {
    Assemble(read(basePath + "/" + n.name + ".dll"),
             if debugging then read(basePath + "/" + n.name + ".pdb") else None)
  }

  /** `FileProviderAssemblyDataProvider` and `NetworkAssemblyDataProvider`:
      search the directories of the scope chain. */
  function DependencyGetAssemblyData(t: Tree, ctx: nat, read: string -> Option<Bytes>, debugging: bool,
                                     n: AssemblyName): (r: Option<AssemblyData>)
    requires Valid(t) && ctx < |t.nodes|
    ensures r.None? <==> forall p :: p in DependencyFindPaths(t, ctx) ==> ReadBeside(read, debugging, n, p).None?
  {
    FirstData(DependencyFindPaths(t, ctx), (p: string) => ReadBeside(read, debugging, n, p))
  }

  /** A dependency resolved in a new scope is found wherever its parent scope
      would find it; only otherwise is the new scope's own directory tried. */
  lemma NewScopeSearchesParentFirst(t: Tree, i: nat, name: AssemblyName, read: string -> Option<Bytes>,
                                    debugging: bool, n: AssemblyName)
    requires Valid(t) && i < |t.nodes|
    ensures var (u, j) := NewScope(t, i, name);
            var parent := DependencyGetAssemblyData(t, i, read, debugging, n);
            Valid(u) && DependencyGetAssemblyData(u, j, read, debugging, n)
              == if parent.Some? then parent else ReadBeside(read, debugging, n, ContentPath(name.name))
  {
    var (u, j) := NewScope(t, i, name);
    NewScopeFindPaths(t, i, name);
    var f := (p: string) => ReadBeside(read, debugging, n, p);
    FirstDataAppend(DependencyFindPaths(t, i), [ContentPath(name.name)], f);
  }
}
