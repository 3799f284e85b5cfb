# Blazor lazy loading, modelled in Dafny

This project models the core of a Blazor library that loads module assemblies
on demand:

- the **assembly loader**. It answers a load from the assemblies already in the
  isolation context, or by waiting on a load of the same name already in
  flight. Otherwise it opens a dependency scope, fetches the image from a data
  provider, loads its references first, loads the image into the context, and
  runs the load callbacks;
- the **comparers** the loader keys assemblies by: by name, and by name and
  version;
- the **dependency scope tree**, the **locators** that turn a scope into search
  directories, and the **data providers** that read a DLL and its PDB from
  them;
- the two **isolation contexts**: a collectible `AssemblyLoadContext` on the
  server and an `AppDomain` in the browser;
- the **manifest locator and repository**, which read every module's
  `_lazy.json` once and keep the first manifest per module;
- the **`Lazy` component**, which scores component entries against a `Name` and
  picks the single best match;
- the **`LazyRouter`** helpers: the route-table entries built from `Routes`
  sections, navigation, and module loading;
- the **route template parser**, `RouteTemplate.OptionalSegmentsCount`,
  `RouteContext`, and the **type route constraints**;
- the **manifest generator** build task, in both of its revisions.

Where the repository keeps two revisions of a file (`src/...` and
`src/src/...`), both are modelled. Lemmas state where the two revisions agree
and where they differ.

Side effects become explicit state. The loader's state holds:

- the isolation context;
- the in-flight dictionary;
- the `Task` completion sources;
- the load subscribers;
- the scope tree;
- the provider's state;
- a log of observable events.

The collaborators the core cannot see are parameters:

- the runtime's load calls;
- the file and network readers;
- the JSON parser;
- `PEReader`;
- the string hash;
- `AssemblyName.ToString`;
- the route table.

## Model

| member | source | states |
|---|---|---|
| Identity.ByNameHash | src/src/AssemblyLoader/Comparers/AssemblyByNameComparer.cs:25-30 | definition without a contract: the string hash of the lower-cased simple name; `Identity.HashesIgnoreCase` and `Identity.ByNameKeyEquates` state its properties |
| Identity.ByNameEquals | src/src/AssemblyLoader/Comparers/AssemblyByNameComparer.cs:15-18 | definition without a contract: two names are equal when their hashes are; `Identity.CollidingNamesAreEqual` and `Identity.ComparersAreEquivalences` state its properties |
| Identity.NVHash | src/AssemblyLoader/Comparers/AssemblyByNameAndVersionComparer.cs:25-30 | definition without a contract: the combined hash of the lower-cased name and the version text, `0.0.0.0` when there is none; `Identity.MissingVersionIsDefault` and `Identity.NVKeyEquates` state its properties |
| Identity.NVEquals | src/AssemblyLoader/Comparers/AssemblyByNameAndVersionComparer.cs:15-18 | definition without a contract: two names are equal when their hashes are; `Identity.ComparersAreEquivalences` states its properties |
| Identity.ByNameKeyEquates | src/src/AssemblyLoader/Comparers/AssemblyByNameComparer.cs:15-30 | two names whose lower-cased simple names agree are the same assembly to the by-name comparer, whatever their versions |
| Identity.NVKeyEquates | src/AssemblyLoader/Comparers/AssemblyByNameAndVersionComparer.cs:15-30 | two names agreeing on lower-cased name and on version text are the same assembly to the name-and-version comparer |
| Identity.MissingVersionIsDefault | src/AssemblyLoader/Comparers/AssemblyByNameAndVersionComparer.cs:27-29 | a name without a version equals the same name at version 0.0.0.0 |
| Identity.HashesIgnoreCase | src/src/AssemblyLoader/Comparers/AssemblyByNameComparer.cs:25-30 | lower-casing the simple name changes neither comparer's hash |
| Identity.ComparersAreEquivalences | src/AssemblyLoader/Comparers/AssemblyByNameAndVersionComparer.cs:10-18 | both comparers are reflexive, symmetric and transitive |
| Identity.CollidingNamesAreEqual | src/src/AssemblyLoader/Comparers/AssemblyByNameComparer.cs:15-18 | equality is hash equality: under a colliding string hash, two different names are the same assembly |
| Sequences.NotNull | src/AssemblyLoader/Extensions/EnumerableExtensions.cs:9-13 | keeps exactly the non-null values and never lengthens the sequence |
| Sequences.NotNullAppend | src/AssemblyLoader/Extensions/EnumerableExtensions.cs:9-13 | order is preserved: filtering a concatenation filters each part |
| Sequences.NotNullLength | src/AssemblyLoader/Extensions/EnumerableExtensions.cs:9-13 | the result is as long as the number of non-null values |
| Sequences.NotNullOfNulls | src/AssemblyLoader/Extensions/EnumerableExtensions.cs:9-13 | a sequence of nulls yields nothing |
| Sequences.DistinctBy | src/AssemblyLoader/Extensions/EnumerableExtensions.cs:15-22 | no key twice, every key of the input kept, only input elements |
| Sequences.DistinctByKeepsFirsts | src/AssemblyLoader/Extensions/EnumerableExtensions.cs:15-22 | the result is the first element of every key, in input order (an independent reference definition) |
| Sequences.DistinctByOfDistinct | src/AssemblyLoader/Extensions/EnumerableExtensions.cs:15-22 | a sequence without repeated keys is returned unchanged |
| Sequences.GroupBy | src/LazyComponents/LazyRoute/LazyRouter.cs:238 | one group per key of the input, no key twice, each group holding every element of its key in order |
| Sequences.ExceptBy | src/src/AssemblyLoader/Services/AssemblyLoader.cs:261-264 | the keys of the first sequence absent from the second, each once, drawn from the first |
| Sequences.Distinct | src/src/ManifestGenerator/GenerateManifest.cs:95-99 | the same members as the input, none twice |
| Sequences.DistinctKeepsFirsts | src/src/ManifestGenerator/GenerateManifest.cs:101-104 | the result is the first occurrence of each value, in input order |
| Sequences.DistinctOfDistinct | src/src/ManifestGenerator/GenerateManifest.cs:101-104 | a sequence without repeats is returned unchanged |
| Sequences.Except | src/ManifestReader/Services/ManifestRepository.cs:74 | exactly the members of the first sequence not in the second, none twice |
| ContextTree.NewRoot | src/src/AssemblyLoader/Models/AssemblyLoaderContext.cs:23-26 | a new parentless, childless scope; existing scopes unchanged; the tree stays well formed |
| ContextTree.NewScope | src/src/AssemblyLoader/Models/AssemblyLoaderContext.cs:37-43 | a new scope whose parent is the given one and which is appended to its children; no other scope changes; the tree stays well formed |
| ContextTree.Chain | src/src/AssemblyLoader/Models/AssemblyLoaderContext.cs:16-20 | the scopes from the root down to the given one: only the first is parentless, each is the parent of the next |
| ContextTree.ChainStable | src/src/AssemblyLoader/Models/AssemblyLoaderContext.cs:37-43 | adding scopes never changes the ancestry of an existing one |
| ContextTree.NewScopeChain | src/src/AssemblyLoader/Models/AssemblyLoaderContext.cs:37-43 | a new scope's ancestry is its parent's followed by itself |
| ContextTree.NewScopeChainNames | src/src/AssemblyLoader/Models/AssemblyLoaderContext.cs:37-43 | the names along a new scope's ancestry are the parent's followed by the new name |
| Locators.CreateAssemblyLocation | src/src/AssemblyLoader/Services/AssemblyDataLocator.cs:36-39 | both paths are the base directory, a slash, then the assembly's name with `.dll` or `.pdb` |
| Locators.GetFindBasePaths | src/AssemblyLoader/Services/AssemblyDataLocator.cs:23-34 | one content directory per hint in hint order, then the assembly's own, then the framework directory |
| Locators.GetFindPaths | src/src/AssemblyLoader/Services/AssemblyDataLocator.cs:23-34 | one location per directory the first revision searches, in the same order, each naming this assembly's files; the last is in `_framework/_bin` |
| Locators.LocatorRevisionsAgree | src/src/AssemblyLoader/Services/AssemblyDataLocator.cs:23-34 | the current locator searches the first revision's directories in the same order |
| Locators.FindPathsNameTheAssembly | src/src/AssemblyLoader/Services/AssemblyDataLocator.cs:23-39 | every location names this assembly's `.dll` and `.pdb` |
| Locators.BranchesBelowRoot | src/AssemblyLoader.Server/Services/FileProviderAssemblyDataProvider.cs:87-97 | the walk up and the reversal yield the root scope and the scopes below it, top-down, ending with the requesting one |
| Locators.DependencyFindPaths | src/AssemblyLoader.Server/Services/FileProviderAssemblyDataProvider.cs:83-106 | one search directory per scope of the chain, plus the framework directory |
| Locators.DependencyFindPathsImpl | src/AssemblyLoader.Server/Services/FileProviderAssemblyDataProvider.cs:83-106 | the loop-and-reverse implementation yields the reference directory list |
| Locators.RootScopeFindPaths | src/AssemblyLoader.Server/Services/FileProviderAssemblyDataProvider.cs:99-105 | a root scope searches its own content directory, then the framework directory |
| Locators.NewScopeFindPaths | src/AssemblyLoader.Wasm/Services/NetworkAssemblyDataProvider.cs:82-106 | a new scope searches exactly what its parent searches, plus its own content directory last |
| Providers.Assemble | src/src/AssemblyLoader/Services/AssemblyDataProvider.cs:67-72 | data exists exactly when the DLL was read, and carries the DLL and the PDB as read |
| Providers.FirstData | src/AssemblyLoader/Services/AssemblyDataProvider.cs:22-37 | nothing exactly when no candidate has data; otherwise the data of the first candidate that has some |
| Providers.FirstDataAppend | src/src/AssemblyLoader/Services/AssemblyDataProvider.cs:39-51 | searching one list then another finds the first list's data, and only otherwise the second's |
| Providers.LegacyGetAssemblyData | src/AssemblyLoader/Services/AssemblyDataProvider.cs:22-60 | null exactly when no directory of the locator holds the DLL |
| Providers.CacheLookup | src/src/AssemblyLoader/Services/AssemblyDataProvider.cs:25-35 | finds data exactly when an entry's name equals the requested one under the name-and-version comparer |
| Providers.CacheTryAdd | src/src/AssemblyLoader/Services/AssemblyDataProvider.cs:45 | appends only when no equal name is cached, otherwise leaves the cache alone |
| Providers.CacheLookupAppend | src/src/AssemblyLoader/Services/AssemblyDataProvider.cs:45 | after an append, a lookup finds the earlier entry if there is one, else the new entry if its name is equal |
| Providers.GetAssemblyData | src/src/AssemblyLoader/Services/AssemblyDataProvider.cs:28-52 | the cache only grows at the end; a cached answer comes back unchanged; on a miss the answer is the first location's data; data found is cached under the name; nothing found changes nothing |
| Providers.CachedAnswerIsStable | src/src/AssemblyLoader/Services/AssemblyDataProvider.cs:28-52 | once found, asking again under any equal name returns the same data whatever the files hold now |
| Providers.CacheLookupEquates | src/src/AssemblyLoader/Services/AssemblyDataProvider.cs:25 | names the comparer equates look up the same entry |
| Providers.ProviderRevisionsAgree | src/src/AssemblyLoader/Services/AssemblyDataProvider.cs:28-73 | with an empty cache the current provider fetches what the first revision fetches |
| Providers.LocationReadsAsDirectory | src/AssemblyLoader.Server/Services/FileProviderContentFileReader.cs:18-24 | the location built for a directory names the files the first revision reads in it |
| Providers.DependencyGetAssemblyData | src/AssemblyLoader.Server/Services/FileProviderAssemblyDataProvider.cs:24-61 | null exactly when no directory of the scope chain holds the DLL |
| Providers.NewScopeSearchesParentFirst | src/AssemblyLoader.Wasm/Services/NetworkAssemblyDataProvider.cs:22-40 | a new scope finds whatever its parent finds, and only otherwise tries its own directory |
| Isolation.AllOf | src/src/AssemblyLoader.Server/Services/DisposableAssemblyLoadContext.cs:35-44 | no two assemblies with the same name and version; only own or shared ones; every own or shared assembly represented |
| Isolation.ShownByAll | src/AssemblyLoader.Wasm/Services/AppDomainAssemblyLoadContext.cs:46-55 | every own or shared assembly is shown by `AllAssemblies`, itself or an equal one |
| Isolation.OwnComesFirst | src/src/AssemblyLoader.Server/Services/DisposableAssemblyLoadContext.cs:35-44 | the context's own assemblies are never shadowed by shared ones |
| Isolation.NewDisposable | src/src/AssemblyLoader.Server/Services/DisposableAssemblyLoadContext.cs:46-56 | the context is collectible exactly when no debugger is attached, and starts empty |
| Isolation.DisposableLoadData | src/src/AssemblyLoader.Server/Services/DisposableAssemblyLoadContext.cs:58-83 | a disposed context loads nothing; otherwise one runtime load, with symbols when present, and the loaded assembly joins the context's own |
| Isolation.DisposableLoadName | src/src/AssemblyLoader.Server/Services/DisposableAssemblyLoadContext.cs:85-102 | a disposed context loads nothing; otherwise one runtime call, and the context's own assemblies do not change |
| Isolation.DisposableDispose | src/src/AssemblyLoader.Server/Services/DisposableAssemblyLoadContext.cs:105-127 | drops the context, and asks the runtime to unload only a live collectible one |
| Isolation.DisposedContextIsInert | src/src/AssemblyLoader.Server/Services/DisposableAssemblyLoadContext.cs:58-127 | after disposal: disposing again, loading an image and loading a name change nothing; only the default assemblies are shown |
| Isolation.UnloadAtMostOnce | src/src/AssemblyLoader.Server/Services/DisposableAssemblyLoadContext.cs:46-127 | any number of disposals unload at most once, and never when a debugger was attached |
| Isolation.LoadedImageIsVisible | src/src/AssemblyLoader.Server/Services/DisposableAssemblyLoadContext.cs:35-83 | an image the context loaded is shown by `AllAssemblies` |
| Isolation.NewAppDomainContext | src/AssemblyLoader.Wasm/Services/AppDomainAssemblyLoadContext.cs:18-30 | a created domain, or the base domain exactly when creation fails |
| Isolation.AppDomainLoadData | src/AssemblyLoader.Wasm/Services/AppDomainAssemblyLoadContext.cs:79-104 | a disposed context loads nothing; on the base domain a loaded assembly joins the shared ones, otherwise the domain's own |
| Isolation.AppDomainDispose | src/AssemblyLoader.Wasm/Services/AppDomainAssemblyLoadContext.cs:57-77 | drops the domain, unloading a created domain and never the base domain |
| Isolation.AppDomainDisposedIsInert | src/AssemblyLoader.Wasm/Services/AppDomainAssemblyLoadContext.cs:57-104 | after disposal, disposing again and loading change nothing, and only the base assemblies are shown |
| Isolation.FallbackLoadsIntoBaseDomain | src/AssemblyLoader.Wasm/Services/AppDomainAssemblyLoadContext.cs:32-104 | on the base-domain fallback the context owns nothing, yet what it loads is shown |
| Loader.AlreadyLoaded | src/src/AssemblyLoader/Services/AssemblyLoader.cs:113-129 | the first assembly of the context that the by-name comparer equates with the name; nothing exactly when none is equal or the loader is disposed |
| Loader.AlreadyLoading | src/src/AssemblyLoader/Services/AssemblyLoader.cs:95-111 | an in-flight entry the by-name comparer equates with the name; nothing exactly when there is none |
| Loader.TryActionRepeatedly | src/src/AssemblyLoader/Services/AssemblyLoader.cs:277-288 | succeeds exactly when an attempt within the retry count succeeds, stopping at the first such attempt |
| Loader.RetryingAConstant | src/src/AssemblyLoader/Services/AssemblyLoader.cs:277-288 | retrying an action that always answers the same gives that answer |
| Loader.TryAdd | src/src/AssemblyLoader/Services/AssemblyLoader.cs:138-141 | the dictionary accepts a name exactly when no equal key is present, and then appends the entry |
| Loader.TryRemove | src/src/AssemblyLoader/Services/AssemblyLoader.cs:163-166 | removal fails exactly when no equal key is present; otherwise it drops the first entry with an equal key and keeps the others in order |
| Loader.TryAddRemove | src/src/AssemblyLoader/Services/AssemblyLoader.cs:138-166 | adding a name and removing it restores the dictionary |
| Loader.Init | src/src/AssemblyLoader/Services/AssemblyLoader.cs:25-34 | a fresh loader holds the context and nothing else, and satisfies the state invariant |
| Loader.Load | src/src/AssemblyLoader/Services/AssemblyLoader.cs:63-93 | keeps the invariant (at most one load in flight per name, each on a pending task); state only grows; a finished load leaves the dictionary as it found it; a wait is on a pending task |
| Loader.Plant | src/src/AssemblyLoader/Services/AssemblyLoader.cs:86-88 | a new scope named after the assembly: a root for an outside load, else a child of the requesting scope |
| Loader.Perform | src/src/AssemblyLoader/Services/AssemblyLoader.cs:131-169 | a refused registration changes nothing; a finished load publishes its result on its own task, after the callbacks, and unregisters; an unfinished one stays registered |
| Loader.AfterResolve | src/src/AssemblyLoader/Services/AssemblyLoader.cs:145-168 | only a resolved load is completed; anything else leaves its task pending and its entry registered |
| Loader.Notifications | src/src/AssemblyLoader/Services/AssemblyLoader.cs:147-155 | one callback run per subscriber, in subscription order, on the loaded assembly |
| Loader.Completion | src/src/AssemblyLoader/Services/AssemblyLoader.cs:147-161 | the completion of the load's `Task` comes last; callbacks run before it only in the current revision and only on success |
| Loader.Complete | src/src/AssemblyLoader/Services/AssemblyLoader.cs:147-166 | the load's handle is published with the result, the other handles, the context, the provider and the tree are unchanged, and the log ends with the callbacks and the completion; a successful removal drops the entry and finishes; a failed one leaves the dictionary and is an exception exactly in the current revision |
| Loader.CompleteKeepsInvariant | src/src/AssemblyLoader/Services/AssemblyLoader.cs:161-166 | completing a load whose nested loads finished restores the dictionary and keeps the invariant |
| Loader.Resolve | src/src/AssemblyLoader/Services/AssemblyLoader.cs:171-205 | in the current revision an assembly the runtime loads by name is returned at once and the provider is not asked; the first revision goes straight to the provider; resolution keeps the invariant, only grows the state, and leaves the dictionary as it found it when it finishes |
| Loader.Fetch | src/src/AssemblyLoader/Services/AssemblyLoader.cs:189-205 | no data from the provider gives `null` with only the provider's state changed; fetching keeps the invariant and only grows the state |
| Loader.FetchProvided | src/src/AssemblyLoader/Services/AssemblyLoader.cs:189-204 | no data gives `null` and an unreadable image a failure, both leaving the state as it was; resolution keeps the invariant and only grows the state |
| Loader.FetchDependencies | src/src/AssemblyLoader/Services/AssemblyLoader.cs:197-204 | loading the dependencies, then the image, keeps the invariant and only grows the state |
| Loader.Finish | src/src/AssemblyLoader/Services/AssemblyLoader.cs:221-243 | the first unfinished dependency load decides; a dependency not found makes the result null; otherwise the image is loaded into the context |
| Loader.Dependencies | src/src/AssemblyLoader/Services/AssemblyLoader.cs:246-265 | references no visible assembly has, by name and version, each once; nothing where the image cannot be read |
| Loader.DependenciesCoverReferences | src/src/AssemblyLoader/Services/AssemblyLoader.cs:261-264 | every reference no visible assembly has is requested |
| Loader.Gather | src/src/AssemblyLoader/Services/AssemblyLoader.cs:221-225 | all results when every load finished; otherwise a load that did not finish, an exception only if none is still waiting |
| Loader.LoadAll | src/src/AssemblyLoader/Services/AssemblyLoader.cs:207-244 | one outcome per dependency; the invariant is kept; waits are on pending tasks |
| Loader.Subscribe | src/src/AssemblyLoader/Services/AssemblyLoader.cs:36-39 | appends the callback and changes nothing else |
| Loader.Unsubscribe | src/src/AssemblyLoader/Services/AssemblyLoader.cs:41-44 | removes one registration of the callback and changes nothing else |
| Loader.SubscribeUnsubscribe | src/src/AssemblyLoader/Services/AssemblyLoader.cs:36-44 | unsubscribing a callback just subscribed restores the subscriptions |
| Loader.Dispose | src/AssemblyLoader/Services/AssemblyLoader.cs:35-42 | drops the context, disposing it when held, and changes nothing else |
| Loader.DisposeIsIdempotent | src/AssemblyLoader/Services/AssemblyLoader.cs:35-42 | disposing twice disposes the context once |
| Loader.DisposedLoaderLoadsNothing | src/AssemblyLoader/Services/AssemblyLoader.cs:49-77 | every load on a disposed loader returns null and changes nothing |
| Loader.LoadedAssemblyIsReused | src/src/AssemblyLoader/Services/AssemblyLoader.cs:74-77 | a name a visible assembly answers to is served from the context with no state change |
| Loader.InFlightLoadIsShared | src/src/AssemblyLoader/Services/AssemblyLoader.cs:79-84 | a second load of a name in flight waits on the first load's task and changes nothing |
| Loader.InFlightEntryIsUnique | src/src/AssemblyLoader/Services/AssemblyLoader.cs:95-111 | at most one in-flight entry matches a name |
| Loader.FreshLoadOpensScope | src/src/AssemblyLoader/Services/AssemblyLoader.cs:86-88 | a load not served otherwise opens a scope named after the assembly below the requesting scope |
| Loader.FaultedLoadStaysInFlight | src/src/AssemblyLoader/Services/AssemblyLoader.cs:131-169 | after a load fails on an unreadable image, every later load of the name waits on a task that is never completed |
| Loader.FaultedLoadIsRegistered | src/src/AssemblyLoader/Services/AssemblyLoader.cs:138-145 | a load that failed on an unreadable image leaves its entry in the dictionary |
| Loader.FailedLoadPerforms | src/src/AssemblyLoader/Services/AssemblyLoader.cs:63-93 | only a load that reached `PerformAssemblyLoad` can fail |
| Loader.FaultedPerformIsRegistered | src/src/AssemblyLoader/Services/AssemblyLoader.cs:138-145 | a registration that failed on an unreadable image stays in the dictionary |
| Loader.LoadRevisionsAgree | src/AssemblyLoader/Services/AssemblyLoader.cs:49-77 | without subscribers, and with a runtime finding nothing by name, both revisions load alike |
| Loader.PerformRevisionsAgree | src/AssemblyLoader/Services/AssemblyLoader.cs:115-144 | the same, for `PerformAssemblyLoad` |
| Loader.AfterResolveRevisionsAgree | src/AssemblyLoader/Services/AssemblyLoader.cs:131-143 | without subscribers, both revisions complete a resolved load alike |
| Loader.ResolveRevisionsAgree | src/AssemblyLoader/Services/AssemblyLoader.cs:146-172 | the same, for `ResolveAssembly` |
| Loader.FetchRevisionsAgree | src/AssemblyLoader/Services/AssemblyLoader.cs:151-171 | the same, for fetching through the provider |
| Loader.FetchProvidedRevisionsAgree | src/AssemblyLoader/Services/AssemblyLoader.cs:153-171 | the same, once the provider has answered |
| Loader.LoadAllRevisionsAgree | src/AssemblyLoader/Services/AssemblyLoader.cs:174-211 | the same, for `ResolveDependencies` |
| Manifests.Section | src/ManifestReader/Models/ModuleManifest.cs:12-26 | a section exists exactly when the manifest object has a property of that key, and is its value |
| Manifests.Lookup | src/src/LazyComponents/LazyComponent/Lazy.cs:184-185 | a value exactly when some property has the key, and then the value of the first such property |
| Manifests.StringValue | src/src/LazyComponents/LazyComponent/Lazy.cs:184-185 | the first property under the key gives its string, or a number's or boolean's text; nothing when the key is missing or the value is null |
| Manifests.ObjectChildren | src/src/LazyComponents/LazyComponent/Lazy.cs:180-181 | exactly the objects among an array's items |
| Manifests.WithSection | src/src/LazyComponents/LazyComponent/Lazy.cs:177-179 | manifests having the section, one per module name, each module with the section represented: the first one of each name, in order |
| Manifests.RepositoryNeedsNoDedup | src/ManifestReader/Services/ManifestRepository.cs:105 | on the repository's manifests, unique by module, the per-module step drops nothing |
| Manifests.GetManifestPaths | src/ManifestReader/Services/ManifestLocator.cs:22-26 | one `_lazy.json` path per hint, in order; two paths coincide exactly when their hints do |
| Manifests.HintOfPath | src/ManifestReader/Services/ManifestLocator.cs:25 | the path determines the hint |
| Manifests.Find | src/ManifestReader/Services/ManifestRepository.cs:39 | a manifest exactly when a held module has the name, and it is that module's |
| Manifests.AddModule | src/ManifestReader/Services/ManifestRepository.cs:98-106 | a held module keeps its manifest; a new name with an object value is added; a non-object value is skipped |
| Manifests.AddDocument | src/ManifestReader/Services/ManifestRepository.cs:96-107 | after one file, a held module is unchanged and a new one gets the first object of its name |
| Manifests.ParseAll | src/ManifestReader/Services/ManifestRepository.cs:92-94 | fails exactly when one file does not parse; otherwise every file parsed, in order |
| Manifests.NewPaths | src/ManifestReader/Services/ManifestRepository.cs:74 | exactly the manifest paths not read yet, each once |
| Manifests.ReadNew | src/ManifestReader/Services/ManifestRepository.cs:76-85 | one read per new path, in path order |
| Manifests.FetchAll | src/ManifestReader/Services/ManifestRepository.cs:54-69 | a fetch in progress blocks; otherwise every manifest path gets recorded, and the fetch throws exactly when a file read does not parse; modules only grow; a throw leaves the flag set and no module added |
| Manifests.GetAll | src/ManifestReader/Services/ManifestRepository.cs:30-35 | fetches, then returns every held module; hangs exactly when a fetch is stuck |
| Manifests.GetByModuleName | src/ManifestReader/Services/ManifestRepository.cs:37-52 | a held module is returned without fetching; otherwise the answer after fetching, null only when still absent |
| Manifests.ReadAll | src/ManifestReader/Services/ManifestRepository.cs:71-108 | definition without a contract: reads the new paths, records them, parses and adds; `Manifests.FetchAll`, `Manifests.FirstManifestWins` and `Manifests.LoadedPathsAreNotReread` state its properties |
| Manifests.FirstManifestWins | src/ManifestReader/Services/ManifestRepository.cs:71-108 | a held module keeps its manifest; a new one gets the first object of its name across the files, in path order |
| Manifests.LoadedPathsAreNotReread | src/ManifestReader/Services/ManifestRepository.cs:74-90 | paths already read are never read again |
| Manifests.MissingFilesAreNotParsed | src/ManifestReader/Services/ManifestRepository.cs:76-94 | when no new file exists, the fetch completes and adds nothing, whatever the parser does |
| Manifests.FetchIsIdempotent | src/ManifestReader/Services/ManifestRepository.cs:54-90 | a second fetch after one that completed changes nothing |
| Manifests.FailedParseBlocksForever | src/ManifestReader/Services/ManifestRepository.cs:54-69 | after a parse failure every later fetch, `GetAllAsync` and lookup of a missing module waits forever |
| LazyComponents.Entries | src/src/LazyComponents/LazyComponent/Lazy.cs:180-192 | exactly the component objects with a non-blank `TypeFullName`, with their lazy `Name` |
| LazyComponents.CandidatesOf | src/src/LazyComponents/LazyComponent/Lazy.cs:180-192 | the entries of every given manifest and nothing else |
| LazyComponents.Candidates | src/src/LazyComponents/LazyComponent/Lazy.cs:177-192 | the entries of the first manifest per module with a `Components` section |
| LazyComponents.Score | src/src/LazyComponents/LazyComponent/Lazy.cs:196-202 | 3 exactly for the type name itself, 2 exactly for a lazy name equal to `Name` on another type, 0 exactly for an entry related neither way nor by suffix |
| LazyComponents.TopGroup | src/src/LazyComponents/LazyComponent/Lazy.cs:209-210 | nothing only without groups; otherwise a group whose key is the highest |
| LazyComponents.BestMatches | src/src/LazyComponents/LazyComponent/Lazy.cs:208-211 | definition without a contract; `LazyComponents.BestMatchesAreTopScorers` states what it yields |
| LazyComponents.Resolve | src/src/LazyComponents/LazyComponent/Lazy.cs:206-227 | definition without a contract; `LazyComponents.CurrentResolution` and `LazyComponents.FirstRevisionResolution` characterise it |
| LazyComponents.BestMatchesAreTopScorers | src/src/LazyComponents/LazyComponent/Lazy.cs:208-211 | the grouping and sorting yield the candidates of the highest score, in order |
| LazyComponents.TopGroupHasMaxScore | src/src/LazyComponents/LazyComponent/Lazy.cs:208-210 | the highest group key is the highest score |
| LazyComponents.PoolKeepsMaxScore | src/src/LazyComponents/LazyComponent/Lazy.cs:207 | dropping the score-0 candidates keeps the highest score when some candidate scores above 0 |
| LazyComponents.PositiveFilterKeepsTheTop | src/src/LazyComponents/LazyComponent/Lazy.cs:206-211 | the current revision's filter does not change the best matches then |
| LazyComponents.ResolvesToUniqueBest | src/src/LazyComponents/LazyComponent/Lazy.cs:206-227 | a candidate beating every other is the answer (in the current revision, if it scores above 0) |
| LazyComponents.AmbiguousWithoutUniqueBest | src/src/LazyComponents/LazyComponent/Lazy.cs:219-223 | without a candidate beating every other, the selection is ambiguous |
| LazyComponents.ResolveOfBest | src/src/LazyComponents/LazyComponent/Lazy.cs:213-227 | one best match resolves, several are ambiguous |
| LazyComponents.CurrentResolution | src/src/LazyComponents/LazyComponent/Lazy.cs:196-227 | resolves exactly to the unique best positive scorer; not found exactly when nothing scores above 0 |
| LazyComponents.FirstRevisionResolution | src/LazyComponents/LazyComponent/Lazy.cs:56-83 | resolves exactly to the unique best scorer, whatever its score; not found exactly when there are no candidates |
| LazyComponents.RevisionsAgreeOnMatches | src/LazyComponents/LazyComponent/Lazy.cs:66-83 | the revisions agree whenever some candidate scores above 0 |
| LazyComponents.FirstRevisionPicksUnrelatedSingleton | src/LazyComponents/LazyComponent/Lazy.cs:56-83 | a lone unrelated candidate is picked by the first revision and rejected by the current one |
| LazyComponents.ExactTypeNameWins | src/src/LazyComponents/LazyComponent/Lazy.cs:196-197 | a `TypeFullName` equal to `Name` that no other candidate shares wins in both revisions |
| LazyComponents.Fail | src/src/LazyComponents/LazyComponent/Lazy.cs:235-251 | throws exactly when the component is required, else shows the error view |
| LazyComponents.Target | src/src/LazyComponents/LazyComponent/Lazy.cs:111-124 | definition without a contract: the given module with `Name`, or the resolution of `Name`; `LazyComponents.Initialize` states the outcome |
| LazyComponents.Initialize | src/src/LazyComponents/LazyComponent/Lazy.cs:82-152 | a null `Name` throws or waits, never renders, and waits on a waiting repository; a non-required component never throws and a required one never shows the fallback; what is rendered was loaded and holds the type, and is `ModuleName`/`Name` or the manifests' resolution |
| LazyComponents.HangsWithoutName | src/src/LazyComponents/LazyComponent/Lazy.cs:84-132 | definition without a contract: with `Name` null the `try` block still runs before the null check, and waits when the repository or the selected module's load waits; `LazyComponents.InitializeWithoutName` states the outcome |
| LazyComponents.Selected | src/src/LazyComponents/LazyComponent/Lazy.cs:111-124 | definition without a contract: the given module with `Name`, or the manifests' resolution of `Name` |
| LazyComponents.InitializeLoadsWhatItFinds | src/src/LazyComponents/LazyComponent/Lazy.cs:111-147 | the selected type is rendered when its module loads and holds it; a hanging load waits; a failed load, a null assembly or a missing type goes through `ThrowIfRequired` |
| LazyComponents.InitializeFailsWithoutTarget | src/src/LazyComponents/LazyComponent/Lazy.cs:113-147 | without `ModuleName`, a waiting repository waits; a throwing one, or manifests not resolving `Name`, go through `ThrowIfRequired` |
| LazyComponents.InitializeWithoutName | src/src/LazyComponents/LazyComponent/Lazy.cs:82-152 | with `Name` null it waits exactly when the given module's load, the repository or the single tied entry's load waits, and otherwise throws |
| LazyComponents.ModuleNameSkipsTheManifests | src/src/LazyComponents/LazyComponent/Lazy.cs:113-124 | with `ModuleName` given, the manifests play no part |
| LazyComponents.InitializeFirst | src/LazyComponents/LazyComponent/Lazy.cs:32-95 | with `Name` set, several best matches throw, none shows the fallback, and what is rendered is the resolution; anything rendered was loaded by module name and holds the type |
| LazyComponents.InitializeFirstWithoutName | src/LazyComponents/LazyComponent/Lazy.cs:17-95 | with `Name` never set, an entry with a lazy name throws (`EndsWith(null)`), several entries throw, none shows the fallback, and what is rendered is the only entry |
| LazyComponents.SelectedFirst | src/LazyComponents/LazyComponent/Lazy.cs:66-83 | definition without a contract: the single best match for `Name`, or the only entry when `Name` is null |
| LazyComponents.InitializeFirstLoadsWhatItFinds | src/LazyComponents/LazyComponent/Lazy.cs:32-95 | the selected type is rendered when its module loads and holds it; a hanging load or repository waits; a failed one throws; a null assembly or missing type shows the fallback |
| LazyComponents.NullNameResolution | src/LazyComponents/LazyComponent/Lazy.cs:17-95 | with `Name` null: throws exactly when some entry has a lazy name, finds nothing exactly without entries, and is ambiguous exactly with several |
| LazyRouting.StringUntilAny | src/LazyComponents/LazyRoute/LazyRouter.cs:128-134 | the longest prefix free of the characters: it stops at the first of them |
| LazyRouting.StringUntilAnyKeepsClean | src/LazyComponents/LazyRoute/LazyRouter.cs:128-134 | a string without the characters is kept whole |
| LazyRouting.StringUntilAnyIdempotent | src/LazyComponents/LazyRoute/LazyRouter.cs:128-134 | cutting twice is cutting once |
| LazyRouting.StringUntilAnyIgnoresTail | src/LazyComponents/LazyRoute/LazyRouter.cs:128-134 | whatever follows the first of the characters does not matter |
| LazyRouting.MissingParameter | src/LazyComponents/LazyRoute/LazyRouter.cs:91-117 | nothing exactly when all four parameters are set; otherwise the first missing one in the order checked |
| LazyRouting.EntryOf | src/LazyComponents/LazyRoute/LazyRouter.cs:227-237 | definition without a contract: the entry of an object whose type and route are non-blank strings; `LazyRouting.RouteEntries` states it over a section |
| LazyRouting.RouteEntries | src/LazyComponents/LazyRoute/LazyRouter.cs:227-237 | exactly the route objects with non-blank type and route |
| LazyRouting.RoutesOf | src/LazyComponents/LazyRoute/LazyRouter.cs:245-247 | one route per entry, and exactly the entries' routes |
| LazyRouting.Handlers | src/LazyComponents/LazyRoute/LazyRouter.cs:245-247 | one handler of the module per group, carrying the group's routes |
| LazyRouting.GroupsAreInhabited | src/LazyComponents/LazyRoute/LazyRouter.cs:238 | no group is empty |
| LazyRouting.GroupRoutesAreEntries | src/LazyComponents/LazyRoute/LazyRouter.cs:238-247 | a group's routes are exactly the routes of the entries of its type |
| LazyRouting.EntriesAreGrouped | src/LazyComponents/LazyRoute/LazyRouter.cs:238 | every entry lands in the group of its type |
| LazyRouting.ModuleRoutes | src/LazyComponents/LazyRoute/LazyRouter.cs:238-247 | handlers of the module, none twice, none without routes |
| LazyRouting.ModuleRoutesServeEntries | src/LazyComponents/LazyRoute/LazyRouter.cs:225-247 | a handler serves a route exactly when the module declares that type and route |
| LazyRouting.ManifestServesItsEntries | src/LazyComponents/LazyRoute/LazyRouter.cs:225-247 | a manifest's handlers serve exactly what its `Routes` section declares |
| LazyRouting.ConcatServes | src/LazyComponents/LazyRoute/LazyRouter.cs:225 | the handlers of several manifests serve exactly what some manifest's handlers serve |
| LazyRouting.ConcatDistinctAt | src/LazyComponents/LazyRoute/LazyRouter.cs:222-247 | manifests of distinct modules never contribute the same handler twice |
| LazyRouting.GetLazyRoutes | src/LazyComponents/LazyRoute/LazyRouter.cs:220-250 | no handler twice, none without routes, and a handler serves a route exactly when the first manifest of its module with a `Routes` section declares it |
| LazyRouting.ServedRoutesAreNotBlank | src/LazyComponents/LazyRoute/LazyRouter.cs:232 | every route served, and its page type, is non-blank |
| LazyRouting.Render | src/LazyComponents/LazyRoute/LazyRouter.cs:302-306 | draws the fragment and ends the first render |
| LazyRouting.HandlerFor | src/LazyComponents/LazyRoute/LazyRouter.cs:254-257 | definition without a contract: the table's handler for the path's segments; `LazyRouting.QueryAndFragmentAreIgnored` states its property |
| LazyRouting.Navigate | src/LazyComponents/LazyRoute/LazyRouter.cs:252-300 | definition without a contract: `LazyRouting.NavigateWith` given the table's handler; `LazyRouting.QueryAndFragmentAreIgnored` and `LazyRouting.UnmatchedPathScreen` state its properties |
| LazyRouting.NavigateWith | src/LazyComponents/LazyRoute/LazyRouter.cs:252-300 | a lazy handler starts its module's load; a page type that is not a component throws; no handler with interception goes to the browser; otherwise the matching fragment is drawn |
| LazyRouting.QueryAndFragmentAreIgnored | src/LazyComponents/LazyRoute/LazyRouter.cs:254-257 | the query string and the fragment play no part in routing |
| LazyRouting.UnmatchedPathScreen | src/LazyComponents/LazyRoute/LazyRouter.cs:288-299 | an unmatched path draws `NotFound` (or `Loading` on the first render) unless intercepted, which hands it to the browser |
| LazyRouting.Append | src/LazyComponents/LazyRoute/LazyRouter.cs:186-188 | the additional assemblies keep their order and gain the module last |
| LazyRouting.TableAssemblies | src/LazyComponents/LazyRoute/LazyRouter.cs:195-210 | the app assembly first, then exactly the additional ones |
| LazyRouting.PerformModuleLoad | src/LazyComponents/LazyRoute/LazyRouter.cs:158-191 | a loaded module is appended at once; otherwise `Loading` is drawn first, and a null or failed load throws and adds nothing |
| LazyRouting.LoadedModuleJoinsTheTable | src/LazyComponents/LazyRoute/LazyRouter.cs:186-210 | after a module load the route table is built from every earlier assembly and the new one |
| RouteTemplates.OptionalCountIsOptionalSegments | src/LazyComponents/LazyRoute/Internals/RouteTemplate.cs:12-17 | the count is the number of optional segments: zero exactly when none is, the length exactly when all are |
| RouteTemplates.ParsePart | src/LazyComponents/LazyRoute/Internals/TemplateParser.cs:24-61 | accepted exactly when the segment is well formed; a literal is kept as is; a parameter is its braced name |
| RouteTemplates.BracedRoundTrip | src/LazyComponents/LazyRoute/Internals/TemplateParser.cs:42-61 | a braced name parses back to the name as a parameter exactly when the name is acceptable |
| RouteTemplates.ParseParts | src/LazyComponents/LazyRoute/Internals/TemplateParser.cs:20-63 | all segments in order exactly when each is well formed; otherwise the error of a malformed one |
| RouteTemplates.Clash | src/LazyComponents/LazyRoute/Internals/TemplateParser.cs:77-86 | definition without a contract: the pair of segments the inner loop rejects; `RouteTemplates.FindClash` states the search |
| RouteTemplates.FindClash | src/LazyComponents/LazyRoute/Internals/TemplateParser.cs:65-88 | the first clashing pair in the loops' order; nothing exactly when no parameter is repeated or followed by an optional one |
| RouteTemplates.Valid | src/LazyComponents/LazyRoute/Internals/TemplateParser.cs:10-91 | definition without a contract: the templates accepted, as the reference `RouteTemplates.ParseTemplate` is proved against |
| RouteTemplates.ParseTemplate | src/LazyComponents/LazyRoute/Internals/TemplateParser.cs:10-91 | accepts exactly the valid templates; a template of slashes is the root; otherwise the trimmed text and the parsed segments; a malformed segment gives its error; a clash gives the first clashing pair in loop order |
| RouteTemplates.OnlySlashesTrimToNothing | src/LazyComponents/LazyRoute/Internals/TemplateParser.cs:13-18 | a template of slashes, the empty one included, trims to nothing |
| RouteContexts.Pieces | src/LazyComponents/LazyRoute/Internals/RouteContext.cs:14 | non-empty pieces without a separator |
| RouteContexts.NewContext | src/LazyComponents/LazyRoute/Internals/RouteContext.cs:10-20 | one unescaped segment per piece of the path, with no handler and no parameters yet |
| RouteContexts.TrimIsRedundant | src/LazyComponents/LazyRoute/Internals/RouteContext.cs:14 | the trim changes nothing once empty entries are removed |
| RouteContexts.OnlySeparatorsHaveNoSegments | src/LazyComponents/LazyRoute/Internals/RouteContext.cs:14 | a path of separators, the empty one included, has no segments |
| RouteContexts.JoinedSegmentsRoundTrip | src/LazyComponents/LazyRoute/Internals/RouteContext.cs:14 | segments joined by separators, with any separators around them, split back into the same segments |
| RouteConstraints.TypeMatch | src/src/LazyComponents/LazyRoute/Internals/TypeRouteConstraint.cs:14-26 | matches exactly when the segment parses, and converts to the parsed value |
| RouteConstraints.OptionalTypeMatch | src/src/LazyComponents/LazyRoute/Internals/OptionalTypeRouteConstraint.cs:14-35 | an absent or empty segment matches as null without parsing; otherwise as the plain constraint |
| RouteConstraints.OptionalAgreesOnPresentSegments | src/src/LazyComponents/LazyRoute/Internals/OptionalTypeRouteConstraint.cs:14-35 | on a present segment the optional constraint is the plain one; it also accepts the unset segment |
| RouteConstraints.ConvertedOnlyOnMatch | src/src/LazyComponents/LazyRoute/Internals/TypeRouteConstraint.cs:14-26 | a value is converted only on a match |
| ManifestGeneration.NormalizePath | src/src/ManifestGenerator/GenerateManifest.cs:95-97 | every backslash and slash becomes the platform separator; nothing else changes |
| ManifestGeneration.NormalizePathIdempotent | src/src/ManifestGenerator/GenerateManifest.cs:95-97 | normalising yields a normalised path, and leaves one unchanged |
| ManifestGeneration.SanitizePaths | src/src/ManifestGenerator/GenerateManifest.cs:95-99 | exactly the normalised input paths, each once |
| ManifestGeneration.SanitizePathsIdempotent | src/src/ManifestGenerator/GenerateManifest.cs:95-99 | sanitising twice is sanitising once |
| ManifestGeneration.NonBlank | src/src/ManifestGenerator/GenerateManifest.cs:101-102 | exactly the names that are neither null nor blank |
| ManifestGeneration.SanitizeNames | src/src/ManifestGenerator/GenerateManifest.cs:101-104 | exactly the usable names, each once |
| ManifestGeneration.SanitizeNamesKeepsFirstOccurrences | src/src/ManifestGenerator/GenerateManifest.cs:101-104 | the names keep the order of their first occurrence |
| ManifestGeneration.SanitizeNamesIdempotent | src/src/ManifestGenerator/GenerateManifest.cs:101-104 | sanitising twice is sanitising once |
| ManifestGeneration.Merged | src/src/ManifestGenerator/GenerateManifest.cs:126-153 | definition without a contract: every section of every generator in generator order, the reference `ManifestGeneration.MergedAppend` and `ManifestGeneration.ExecuteManifestGenerators` are stated against |
| ManifestGeneration.MergedAppend | src/src/ManifestGenerator/GenerateManifest.cs:130-148 | merging a concatenation of generator outputs merges each part |
| ManifestGeneration.ExecuteManifestGenerators | src/src/ManifestGenerator/GenerateManifest.cs:126-153 | throws exactly when two sections share a key; null exactly when no generator produced a section; otherwise every section of every generator, in order |
| ManifestGeneration.RunModule | src/src/ManifestGenerator/GenerateManifest.cs:55-66 | fails exactly when the module fails; otherwise the module's merged sections, null exactly when there are none |
| ManifestGeneration.Execute | src/src/ManifestGenerator/GenerateManifest.cs:41-91 | fails exactly when some sanitised module fails; otherwise one entry per module, in order, holding its merged sections (empty when none), no module twice |
| ManifestGeneration.Expected | src/src/ManifestGenerator/GenerateManifest.cs:41-91 | one entry per module in order, each holding every section its generators produced |
| ManifestGeneration.ExecuteModules | src/src/ManifestGenerator/GenerateManifest.cs:50-85 | the loop over modules yields the reference manifest, or fails exactly when a module fails |
| ManifestGeneration.ExpectedKeepsNames | src/src/ManifestGenerator/GenerateManifest.cs:66 | distinct module names give distinct manifest entries |
| ManifestGeneration.ExecuteLegacy | src/ManifestGenerator/GenerateManifest.cs:37-80 | fails exactly as the current revision does; otherwise its manifest without the modules that have no sections |
| ManifestGeneration.ExecuteModulesLegacy | src/ManifestGenerator/GenerateManifest.cs:46-74 | the earlier loop yields the filtered reference manifest, or fails exactly when a module fails |
| ManifestGeneration.LegacyPrefixIsFiltered | src/ManifestGenerator/GenerateManifest.cs:46-74 | after each module the earlier loop has written the filtered reference for the modules so far |
| ManifestGeneration.LegacyOmitsOnlyEmptyModules | src/ManifestGenerator/GenerateManifest.cs:56-62 | an entry is in the earlier manifest exactly when it is in the current one and has sections |

## Left out

- Concurrency. Loads run one at a time, and `Task.WhenAll` runs its loads one
  after another. A task awaited before it completes shows up as an `Awaiting`
  outcome. A `ConcurrentDictionary` is a sequence of entries in insertion
  order.
- Loader.Retried: on one thread a retried `TryAdd`/`TryRemove` gives the answer
  of its first attempt. Races between threads are not modelled.
- Loader.Load: the recursion through dependency loads is bounded by a `fuel`
  parameter. A chain of nested loads deeper than the fuel ends in `OutOfFuel`,
  which the source does not have. Every property is stated for any fuel.
- Locators.DependencyFindPaths: its own contract gives only the length. The
  contents are stated by `Locators.DependencyFindPathsImpl`,
  `Locators.RootScopeFindPaths` and `Locators.NewScopeFindPaths`.
- Identity.HashesIgnoreCase: `ToLowerInvariant` is modelled on ASCII letters
  only. The string hash and `HashCode.Combine` are parameters, and so is
  `Version.ToString`: the version is kept as its text.
- `AssemblyName.ToString()`, which the locators interpolate, is a parameter
  (`display`).
- The runtime's `LoadFromStream`, `LoadFromAssemblyName`,
  `AppDomain.Load` and `AppDomain.CreateDomain` are parameters. So are
  `PEReader`/`MetadataReader`, reduced to "the references of an image, or
  nothing when it is not one".
- Logging, `Debug.WriteLine`, and whether a debugger is attached. The last is
  a boolean parameter.
- Load callbacks are identified by numbers. Running one is an event in the
  loader's log; what it does is not modelled.
- The checks in `ResolveAssembly` for a load context that is null are not
  modelled. In the first revision it sits after the dependencies and before
  `Load(data)` (lines 166-169 of src/AssemblyLoader/Services/AssemblyLoader.cs).
  In the current one it opens `ResolveAssembly`, before the load by name
  (lines 176-179 of src/src/AssemblyLoader/Services/AssemblyLoader.cs). The
  model's loader always has a load context.
- The `_assemblyLoadContext == null || assemblyData.DllBytes == null` check of
  `GetAssemblyDependencies` is not modelled: line 217 of
  src/AssemblyLoader/Services/AssemblyLoader.cs and line 250 of
  src/src/AssemblyLoader/Services/AssemblyLoader.cs. The load context is
  always there and `AssemblyData` always holds a DLL.
- `GetLoadedAssemblyByName` is not a separate member. It is the
  `Loader.AlreadyLoaded` lookup, and `LazyRouter` receives its answer as the
  `loaded` parameter of `LazyRouting.PerformModuleLoad`.
- JSON is reduced to objects, arrays, strings, other primitives carried with
  their text, and `null`. `JObject.Parse` and the UTF-8 decoding are a
  parameter that may fail.
- Manifests.StringValue: an object or an array under the key makes
  `Value<string?>` throw `InvalidCastException`. The model reads it as `null`,
  so such an entry is skipped where the source's `Lazy` and `LazyRouter` would
  throw. A number's or boolean's text is a field of the token; its formatting
  is not modelled.
- RouteTemplates.ParseTemplate: the repeated-parameter check compares names
  ignoring case on the ASCII letters only. `StringComparison.OrdinalIgnoreCase`
  folds every cased letter, so `{é}/{É}` is rejected by the source and
  accepted here.
- LazyComponents.Score: `TypeFullName.EndsWith(Name)` compares by the current
  culture. The model compares character by character, which differs only on
  characters the culture ignores or combines. The same holds for the first
  revision's score in `LazyComponents.InitializeFirst`.
- The file and network readers are a parameter that returns bytes or nothing.
  The server and browser content readers differ only in how they fetch, so
  `Providers.LocationReadsAsDirectory` states their shared path joining once.
- Rendering is reduced to the sequence of fragments drawn. Omitted:
  `RenderTreeBuilder`, `RouteTable`/`RouteTableFactory` (the table is a
  parameter), `NavigationManager`, `OnLocationChanged`, `OnAfterRenderAsync`,
  the router's `Dispose`, and `NavigateTo`, whose outcome is `BrowserLoad`.
- LazyComponents.Initialize: `OnBeforeLoadAsync` and `OnAfterLoad`, which are
  user hooks, are not modelled, nor is the `DynamicComponent` rendering.
  `Assembly.GetType` is a parameter.
- `Uri.UnescapeDataString` is a parameter of `RouteContexts.NewContext`.
- The `TemplateSegment` constructor is a parameter of `ParseTemplate`.
  Only the fields the parser checks are kept: value, parameter flag and
  optional flag.
- ManifestGeneration: `ResolveAvailableDlls`, `MetadataLoadContext` and the
  generators' reflection are a parameter giving each module's generator
  outputs or a failure. The JSON serialisation and the file write are left
  out, and so is `Path.DirectorySeparatorChar`, which is a parameter.
  `ResolveAvailableDlls` and the creation of the metadata context run before
  the per-module `try` (line 47 of src/src/ManifestGenerator/GenerateManifest.cs,
  line 43 of src/ManifestGenerator/GenerateManifest.cs). If they fail, for
  example when `Directory.GetFiles` throws, `Execute` throws instead of
  returning `false`, even with no module names. The per-module `Run`
  parameter cannot express that, so the model does not.
- ManifestGeneration.Execute: the duplicate-key branch of `manifest.Add` is not
  modelled. The sanitised names are distinct, so that branch cannot be
  reached.
- ManifestGeneration.Merged is the reference that the merge loop is proved
  against, so it has no contract of its own.
