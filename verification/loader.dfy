/** `AssemblyLoader`, both revisions (src/AssemblyLoader = `Legacy`,
    src/src/AssemblyLoader = `Current`), as one engine.

    A load of a name, in order: nothing without an isolation context; an
    assembly the context already shows under the by-name comparer; the `Task` of
    a load of that name already in flight; otherwise a new dependency scope,
    an entry in the in-flight dictionary (keyed by the by-name-and-version
    comparer), resolution (the runtime by name, in the current revision only;
    then the data provider; then every dependency not yet loaded, all of them
    even when one fails; then the image itself), the callbacks of the current
    revision, the `Task` result published to anyone awaiting it, and the entry
    removed.

    The model is sequential: each dependency load runs to completion, or to
    the point where it would wait, before the next starts. A task is a handle
    into `handles`, published once; a load that waits on an unpublished task
    ends in `Awaiting`, which in a sequential run means the load does not
    finish. Exceptions the source throws are `Failed`. The isolation context,
    the data provider and the metadata reader are parameters (`Env`), so the
    engine serves both revisions and every platform. */
module Loader {
  import opened Wrappers
  import Sequences
  import opened Identity
  import opened ContextTree
  import opened Providers

  datatype Revision = Legacy | Current

  /** The collaborators of a loader over isolation-context state `C` and
      data-provider state `P`:
      - `visible`: `AllAssemblies` of the context;
      - `loadByName`: the context's `Load(AssemblyName)` (current revision);
      - `loadData`: the context's `Load(AssemblyData)`;
      - `provide`: `GetAssemblyDataAsync(name, scope)`, given the scope tree;
      - `references`: the assembly references in an image's metadata, `None`
        where `PEReader` throws on bytes that are not an image. */
  datatype Env<!C, !P> = Env(
    revision: Revision,
    hashes: Hashes,
    visible: C -> seq<Assembly>,
    loadByName: (C, AssemblyName) -> (C, Option<Assembly>),
    loadData: (C, AssemblyData) -> (C, Option<Assembly>),
    provide: (P, AssemblyName, Tree, nat) -> (P, Option<AssemblyData>),
    references: Bytes -> Option<seq<AssemblyName>>)

  /** An entry of `_loadingAssemblies`: the name and its task. */
  datatype Entry = Entry(key: AssemblyName, handle: nat)

  /** A `TaskCompletionSource<Assembly?>`: not yet completed, or completed with
      its result. */
  datatype Handle = Pending | Published(result: Option<Assembly>)

  /** What other code can observe, in order: a load callback run on a loaded
      assembly, a task completed, the isolation context disposed. */
  datatype Event =
    | Notified(callback: nat, handle: nat, assembly: Assembly)
    | Publish(handle: nat, result: Option<Assembly>)
    | ContextDisposed

  /** The exceptions a load can end in. */
  datatype Fault = ConcurrencyAdding | ConcurrencyRemoving | BadImage

  /** How a load ends: a result (possibly `null`), waiting on a task that is
      not completed, an exception, or the model's recursion bound reached. */
  datatype Outcome = Done(result: Option<Assembly>) | Awaiting(handle: nat) | Failed(fault: Fault) | OutOfFuel

  /** A loader: `_assemblyLoadContext` (`None` once disposed), the in-flight
      dictionary, the `Task` completion sources, `_onAssemblyLoad`, the dependency scopes created so
      far, the data provider's state, and the observable events. */
  datatype State<C, P> = State(
    context: Option<C>,
    registry: seq<Entry>,
    handles: seq<Handle>,
    subscribers: seq<nat>,
    tree: Tree,
    provider: P,
    events: seq<Event>)

  /** `TryAdd` and `TryRemove` are retried this many times (current revision). */
  const Retries: nat := 5

  /** The comparer a lookup uses. */
  datatype Comparer = ByName | ByNameAndVersion

  predicate Same(h: Hashes, cmp: Comparer, x: AssemblyName, y: AssemblyName) {
    match cmp
    case ByName => ByNameEquals(h, x, y)
    case ByNameAndVersion => NVEquals(h, x, y)
  }

  /** Index of the first name `cmp` equates with `n`, or -1. */
  function FirstSame(h: Hashes, cmp: Comparer, names: seq<AssemblyName>, n: AssemblyName): (r: int)
    ensures -1 <= r < |names|
    ensures r == -1 <==> forall i :: 0 <= i < |names| ==> !Same(h, cmp, n, names[i])
    ensures r >= 0 ==> Same(h, cmp, n, names[r]) && forall i :: 0 <= i < r ==> !Same(h, cmp, n, names[i])
  {
    if |names| == 0 then -1
    else if Same(h, cmp, n, names[0]) then 0
    else
      var k := FirstSame(h, cmp, names[1..], n);
      assert forall i :: 1 <= i < |names| ==> names[i] == names[1..][i - 1];
      if k == -1 then -1 else k + 1
  }

  function NamesOf(xs: seq<Assembly>): (r: seq<AssemblyName>)
    ensures |r| == |xs| && forall i :: 0 <= i < |xs| ==> r[i] == xs[i].identity
  {
    seq(|xs|, i requires 0 <= i < |xs| => xs[i].identity)
  }

  function KeysOf(reg: seq<Entry>): (r: seq<AssemblyName>)
    ensures |r| == |reg| && forall i :: 0 <= i < |reg| ==> r[i] == reg[i].key
  {
    seq(|reg|, i requires 0 <= i < |reg| => reg[i].key)
  }

  /** `TryGetAlreadyLoadedAssembly`: the first assembly of `AllAssemblies` the
      by-name comparer equates with `n`. */
  function AlreadyLoaded<C, P>(env: Env<C, P>, s: State<C, P>, n: AssemblyName): (r: Option<Assembly>)
    ensures s.context.None? ==> r.None?
    ensures r.Some? ==> r.value in env.visible(s.context.value) && ByNameEquals(env.hashes, n, r.value.identity)
    ensures r.None? && s.context.Some? ==>
              forall a :: a in env.visible(s.context.value) ==> !ByNameEquals(env.hashes, n, a.identity)
    ensures r.Some? ==>
              var xs := env.visible(s.context.value);
              exists k :: 0 <= k < |xs| && r.value == xs[k]
                          && forall j :: 0 <= j < k ==> !ByNameEquals(env.hashes, n, xs[j].identity)
  {
    if s.context.None? then None
    else
      var xs := env.visible(s.context.value);
      var k := FirstSame(env.hashes, ByName, NamesOf(xs), n);
      if k == -1 then None else Some(xs[k])
  }

  /** `TryGetAlreadyLoadingAssembly`: the first in-flight entry the by-name
      comparer equates with `n`. */
  function AlreadyLoading(h: Hashes, reg: seq<Entry>, n: AssemblyName): (r: Option<Entry>)
    ensures r.Some? ==> r.value in reg && ByNameEquals(h, n, r.value.key)
    ensures r.None? <==> forall e :: e in reg ==> !ByNameEquals(h, n, e.key)
  {
    var k := FirstSame(h, ByName, KeysOf(reg), n);
    if k == -1 then None else Some(reg[k])
  }

  /** `TryActionRepeteadly(action, retry)`: the attempts stop at the first
      that succeeds. Returns whether one did and how many were made. */
  function TryActionRepeatedly(action: nat -> bool, retry: nat): (r: (bool, nat))
    ensures r.0 <==> exists i :: 0 <= i < retry && action(i)
    ensures r.0 ==> 1 <= r.1 <= retry && action(r.1 - 1) && forall i :: 0 <= i < r.1 - 1 ==> !action(i)
    ensures !r.0 ==> r.1 == retry && forall i :: 0 <= i < retry ==> !action(i)
  {
    TryFrom(action, 0, retry)
  }

  function TryFrom(action: nat -> bool, from: nat, retry: nat): (r: (bool, nat))
    requires from <= retry
    ensures r.0 <==> exists i :: from <= i < retry && action(i)
    ensures r.0 ==> from < r.1 <= retry && action(r.1 - 1) && forall i :: from <= i < r.1 - 1 ==> !action(i)
    ensures !r.0 ==> r.1 == retry && forall i :: from <= i < retry ==> !action(i)
    decreases retry - from
  {
    if from == retry then (false, retry)
    else if action(from) then (true, from + 1)
    else TryFrom(action, from + 1, retry)
  }

  /** An action that gives the same answer every time gains nothing from
      being retried: this is the sequential case. */
  lemma RetryingAConstant(b: bool, retry: nat)
    requires retry >= 1
    ensures TryActionRepeatedly((i: nat) => b, retry).0 == b
  {
    if b {
      assert ((i: nat) => b)(0);
    }
  }

  /** A dictionary update attempted through `TryActionRepeatedly`: on one
      thread every attempt gives the same answer as the first. */
  function Retried(succeeds: bool): (r: bool)
    ensures r == succeeds
  {
    RetryingAConstant(succeeds, Retries);
    TryActionRepeatedly((i: nat) => succeeds, Retries).0
  }

  /** `_loadingAssemblies.TryAdd(name, task)`: refused when the dictionary's
      comparer finds the key already there. */
  function TryAdd(h: Hashes, reg: seq<Entry>, n: AssemblyName, k: nat): (r: Option<seq<Entry>>)
    ensures r.Some? <==> forall e :: e in reg ==> !NVEquals(h, n, e.key)
    ensures r.Some? ==> r.value == reg + [Entry(n, k)]
  {
    if FirstSame(h, ByNameAndVersion, KeysOf(reg), n) == -1 then Some(reg + [Entry(n, k)]) else None
  }

  /** `_loadingAssemblies.TryRemove(name, out _)`: removes the entry whose key
      the dictionary's comparer equates with `n`, if any. */
  function TryRemove(h: Hashes, reg: seq<Entry>, n: AssemblyName): (r: Option<seq<Entry>>)
    ensures r.None? <==> forall e :: e in reg ==> !NVEquals(h, n, e.key)
    ensures r.Some? ==> |r.value| == |reg| - 1
    ensures r.Some? ==>
              exists k :: 0 <= k < |reg| && NVEquals(h, n, reg[k].key)
                          && (forall j :: 0 <= j < k ==> !NVEquals(h, n, reg[j].key))
                          && r.value == reg[..k] + reg[k + 1..]
  {
    var k := FirstSame(h, ByNameAndVersion, KeysOf(reg), n);
    if k == -1 then None else Some(reg[..k] + reg[k + 1..])
  }

  /** Adding a key and removing it again restores the dictionary. */
  lemma TryAddRemove(h: Hashes, reg: seq<Entry>, n: AssemblyName, k: nat)
    requires TryAdd(h, reg, n, k).Some?
    ensures TryRemove(h, TryAdd(h, reg, n, k).value, n) == Some(reg)
  {
    var r := reg + [Entry(n, k)];
    assert forall i :: 0 <= i < |reg| ==> KeysOf(r)[i] == reg[i].key && reg[i] in reg;
    assert KeysOf(r)[|reg|] == n;
    var i := FirstSame(h, ByNameAndVersion, KeysOf(r), n);
    assert i == |reg|;
    assert r[..i] == reg && r[i + 1..] == [];
    assert r[..i] + r[i + 1..] == reg;
  }

  /** The handle an event refers to, when it refers to one. */
  function EventHandle(e: Event): int {
    match e
    case Notified(_, k, _) => k
    case Publish(k, _) => k
    case ContextDisposed => -1
  }

  /** What every loader state satisfies: a well-formed scope tree; every
      in-flight entry refers to an existing task that is not completed; no
      two entries either comparer equates, so there is at most one load in
      flight per name; events refer to existing tasks. */
  predicate Valid<C, P>(h: Hashes, s: State<C, P>) {
    && ContextTree.Valid(s.tree)
    && (forall i :: 0 <= i < |s.registry| ==>
          s.registry[i].handle < |s.handles| && s.handles[s.registry[i].handle].Pending?)
    && (forall i, j :: 0 <= i < j < |s.registry| ==> !NVEquals(h, s.registry[i].key, s.registry[j].key))
    && (forall i, j :: 0 <= i < j < |s.registry| ==> !ByNameEquals(h, s.registry[i].key, s.registry[j].key))
    && (forall i :: 0 <= i < |s.events| ==> EventHandle(s.events[i]) < |s.handles|)
  }

  /** How a state may change during a load: the context is neither created nor
      dropped, the subscribers stay, the existing tasks keep their state, the
      scope tree only grows, the dictionary only grows, and the events only
      grow, by events about tasks created during the load. */
  predicate Grows<C, P>(s: State<C, P>, u: State<C, P>) {
    && u.context.Some? == s.context.Some?
    && u.subscribers == s.subscribers
    && |s.handles| <= |u.handles|
    && (forall k :: 0 <= k < |s.handles| ==> u.handles[k] == s.handles[k])
    && Extends(s.tree, u.tree)
    && s.registry <= u.registry
    && s.events <= u.events
    && (forall i :: |s.events| <= i < |u.events| ==> EventHandle(u.events[i]) >= |s.handles|)
  }

  lemma GrowsTransitive<C, P>(s: State<C, P>, u: State<C, P>, w: State<C, P>)
    requires Grows(s, u) && Grows(u, w)
    ensures Grows(s, w)
  {
    ExtendsTransitive(s.tree, u.tree, w.tree);
    forall i | |s.events| <= i < |w.events|
      ensures EventHandle(w.events[i]) >= |s.handles|
    {
      if i < |u.events| {
        assert w.events[i] == u.events[i];
      }
    }
  }

  /** A fresh loader: `new AssemblyLoader(provider, context)`. */
  function Init<C, P>(env: Env<C, P>, context: C, provider: P): (s: State<C, P>)
    ensures Valid(env.hashes, s) && s.context == Some(context)
    ensures s.registry == [] && s.handles == [] && s.subscribers == [] && s.events == []
  {
    State(Some(context), [], [], [], Tree([]), provider, [])
  }

  /** The outcome of awaiting task `k`. */
  function Await(h: Handle, k: nat): Outcome {
    match h
    case Pending => Awaiting(k)
    case Published(r) => Done(r)
  }

  /** `LoadAssemblyByNameAsync(name, context)`; `parent` is the scope of the
      load that needs `n` as a dependency, `None` for a load from outside. */
  function Load<C, P>(env: Env<C, P>, s: State<C, P>, n: AssemblyName, parent: Option<nat>, fuel: nat): (r: (State<C, P>, Outcome))
    requires Valid(env.hashes, s)
    requires parent.Some? ==> parent.value < |s.tree.nodes|
    ensures Valid(env.hashes, r.0) && Grows(s, r.0)
    ensures r.1.Done? ==> r.0.registry == s.registry
    ensures r.1.Awaiting? ==> r.1.handle < |r.0.handles| && r.0.handles[r.1.handle].Pending?
    decreases fuel, 3, 0
  {
    if s.context.None? then (s, Done(None))
    else
      var loaded := AlreadyLoaded(env, s, n);
      if loaded.Some? then (s, Done(loaded))
      else
        var loading := AlreadyLoading(env.hashes, s.registry, n);
        if loading.Some? then (s, Await(s.handles[loading.value.handle], loading.value.handle))
        else
          var (tree, scope) := Plant(s.tree, n, parent);
          var s1 := s.(tree := tree);
          GrownTreeKeepsInvariant(env.hashes, s, tree);
          var r := Perform(env, s1, n, scope, fuel);
          GrowsTransitive(s, s1, r.0);
          r
  }

  /** The scope of a new load: a root for a load from outside, otherwise a
      child of the requesting scope. */
  function Plant(t: Tree, n: AssemblyName, parent: Option<nat>): (r: (Tree, nat))
    requires parent.Some? ==> parent.value < |t.nodes|
    ensures r.1 == |t.nodes| && r.1 < |r.0.nodes|
    ensures r.0.nodes[r.1].name == n && r.0.nodes[r.1].parent == parent
    ensures Extends(t, r.0) && (ContextTree.Valid(t) ==> ContextTree.Valid(r.0))
  {
    if parent.None? then NewRoot(t, n) else NewScope(t, parent.value, n)
  }

  /** A scope tree that grew validly keeps the state valid. */
  lemma GrownTreeKeepsInvariant<C, P>(h: Hashes, s: State<C, P>, tree: Tree)
    requires Valid(h, s) && ContextTree.Valid(tree) && Extends(s.tree, tree)
    ensures Valid(h, s.(tree := tree)) && Grows(s, s.(tree := tree))
  {
  }

  /** `PerformAssemblyLoad`: register a task under `n`, resolve, run the load
      callbacks, complete its `Task`, unregister. */
  function Perform<C, P>(env: Env<C, P>, s: State<C, P>, n: AssemblyName, scope: nat, fuel: nat): (r: (State<C, P>, Outcome))
    requires Valid(env.hashes, s) && s.context.Some? && scope < |s.tree.nodes|
    requires AlreadyLoading(env.hashes, s.registry, n).None?
    ensures Valid(env.hashes, r.0) && Grows(s, r.0)
    ensures r.1.Done? ==> r.0.registry == s.registry
    ensures r.1.Done? ==> |s.handles| < |r.0.handles| && r.0.handles[|s.handles|] == Published(r.1.result)
    ensures r.1.Done? ==> Ends(r.0.events, Completion(env.revision, s.subscribers, |s.handles|, r.1.result))
    ensures TryAdd(env.hashes, s.registry, n, |s.handles|).None? ==> r == (s, Failed(ConcurrencyAdding))
    ensures TryAdd(env.hashes, s.registry, n, |s.handles|).Some? ==> |s.handles| < |r.0.handles|
    ensures TryAdd(env.hashes, s.registry, n, |s.handles|).Some? && !r.1.Done? ==>
              |s.registry| < |r.0.registry| && r.0.registry[|s.registry|] == Entry(n, |s.handles|)
    ensures r.1.Awaiting? ==> r.1.handle < |r.0.handles| && r.0.handles[r.1.handle].Pending?
    decreases fuel, 2, 0
  {
    var k := |s.handles|;
    var added := TryAdd(env.hashes, s.registry, n, k);
    var ok := match env.revision
              case Current => Retried(added.Some?)
              case Legacy => added.Some?;
    if !ok || added.None? then
      (s, Failed(ConcurrencyAdding))
    else
      var s1 := s.(registry := added.value, handles := s.handles + [Pending]);
      RegisterKeepsInvariant(env, s, n);
      var (s2, o) := Resolve(env, s1, n, scope, fuel);
      AfterResolve(env, s, s1, s2, n, o)
  }

  /** The rest of `PerformAssemblyLoad` once `ResolveAssembly` ended in `o`:
      anything but a result leaves its `Task` and its entry as they are. */
  function AfterResolve<C, P>(env: Env<C, P>, s: State<C, P>, s1: State<C, P>, s2: State<C, P>, n: AssemblyName,
                              o: Outcome): (r: (State<C, P>, Outcome))
    requires Valid(env.hashes, s) && Valid(env.hashes, s1) && Valid(env.hashes, s2)
    requires TryAdd(env.hashes, s.registry, n, |s.handles|).Some?
    requires s1 == s.(registry := s.registry + [Entry(n, |s.handles|)], handles := s.handles + [Pending])
    requires Grows(s, s1) && Grows(s1, s2)
    requires o.Done? ==> s2.registry == s1.registry
    requires o.Awaiting? ==> o.handle < |s2.handles| && s2.handles[o.handle].Pending?
    ensures Valid(env.hashes, r.0) && Grows(s, r.0)
    ensures r.1.Done? ==> r.0.registry == s.registry
    ensures r.1.Done? ==> |s.handles| < |r.0.handles| && r.0.handles[|s.handles|] == Published(r.1.result)
    ensures r.1.Done? ==> Ends(r.0.events, Completion(env.revision, s.subscribers, |s.handles|, r.1.result))
    ensures !r.1.Done? ==> r == (s2, o)
    ensures !r.1.Done? ==> |s.registry| < |r.0.registry| && r.0.registry[|s.registry|] == Entry(n, |s.handles|)
    ensures r.1.Awaiting? ==> r.1.handle < |r.0.handles| && r.0.handles[r.1.handle].Pending?
  {
    var k := |s.handles|;
    GrowsTransitive(s, s1, s2);
    if !o.Done? then
      assert s2.registry[|s.registry|] == s1.registry[|s.registry|];
      (s2, o)
    else
      TryAddRemove(env.hashes, s.registry, n, k);
      var r := Complete(env, s2, n, k, o.result);
      CompleteKeepsInvariant(env, s, s2, n, k, o.result);
      r
  }

  /** Registering a task under a name the dictionary does not hold keeps the
      state valid. */
  lemma RegisterKeepsInvariant<C, P>(env: Env<C, P>, s: State<C, P>, n: AssemblyName)
    requires Valid(env.hashes, s) && TryAdd(env.hashes, s.registry, n, |s.handles|).Some?
    requires AlreadyLoading(env.hashes, s.registry, n).None?
    ensures var s1 := s.(registry := s.registry + [Entry(n, |s.handles|)], handles := s.handles + [Pending]);
            Valid(env.hashes, s1) && Grows(s, s1)
  {
    var s1 := s.(registry := s.registry + [Entry(n, |s.handles|)], handles := s.handles + [Pending]);
    forall i, j | 0 <= i < j < |s1.registry|
      ensures !NVEquals(env.hashes, s1.registry[i].key, s1.registry[j].key)
    {
      if j == |s.registry| {
        assert s1.registry[i] in s.registry;
        assert !NVEquals(env.hashes, n, s1.registry[i].key);
      }
    }
    forall i, j | 0 <= i < j < |s1.registry|
      ensures !ByNameEquals(env.hashes, s1.registry[i].key, s1.registry[j].key)
    {
      if j == |s.registry| {
        assert s1.registry[i] in s.registry;
        assert !ByNameEquals(env.hashes, n, s1.registry[i].key);
      }
    }
    ExtendsTransitive(s.tree, s.tree, s.tree);
  }

  /** `xs` ends with `suffix`. */
  predicate Ends<T(==)>(xs: seq<T>, suffix: seq<T>) {
    |suffix| <= |xs| && xs[|xs| - |suffix|..] == suffix
  }

  /** The load callbacks of the current revision, in subscription order. */
  function Notifications(subscribers: seq<nat>, k: nat, a: Assembly): (r: seq<Event>)
    ensures |r| == |subscribers|
    ensures forall i :: 0 <= i < |r| ==> r[i] == Notified(subscribers[i], k, a)
  {
    seq(|subscribers|, i requires 0 <= i < |subscribers| => Notified(subscribers[i], k, a))
  }

  /** The events a completed load adds: the callbacks (current revision, on
      success), then the completion of its task. */
  function Completion(revision: Revision, subscribers: seq<nat>, k: nat, result: Option<Assembly>): (r: seq<Event>)
    ensures |r| >= 1 && r[|r| - 1] == Publish(k, result)
    ensures forall i :: 0 <= i < |r| ==> EventHandle(r[i]) == k
    ensures revision == Legacy || result.None? ==> r == [Publish(k, result)]
    ensures revision == Current && result.Some? ==>
              r[..|r| - 1] == Notifications(subscribers, k, result.value)
  {
    (if revision == Current && result.Some? then Notifications(subscribers, k, result.value) else [])
      + [Publish(k, result)]
  }

  /** The end of `PerformAssemblyLoad` once resolution produced `result`:
      callbacks, `SetResult`, then `TryRemove` (retried and checked in the
      current revision, unchecked in the first). */
  function Complete<C, P>(env: Env<C, P>, s: State<C, P>, n: AssemblyName, k: nat, result: Option<Assembly>): (r: (State<C, P>, Outcome))
    requires k < |s.handles|
    ensures |r.0.handles| == |s.handles| && r.0.handles[k] == Published(result)
    ensures forall j :: 0 <= j < |s.handles| && j != k ==> r.0.handles[j] == s.handles[j]
    ensures s.events <= r.0.events && Ends(r.0.events, Completion(env.revision, s.subscribers, k, result))
    ensures r.0.context == s.context && r.0.provider == s.provider && r.0.tree == s.tree
            && r.0.subscribers == s.subscribers
    ensures r.1 == Done(result) || r.1 == Failed(ConcurrencyRemoving)
    ensures TryRemove(env.hashes, s.registry, n).Some? ==>
              r.1 == Done(result) && r.0.registry == TryRemove(env.hashes, s.registry, n).value
              && |r.0.registry| == |s.registry| - 1
    ensures TryRemove(env.hashes, s.registry, n).None? ==>
              r.0.registry == s.registry && (r.1 == Failed(ConcurrencyRemoving) <==> env.revision == Current)
  {
    var s3 := s.(handles := s.handles[k := Published(result)],
                 events := s.events + Completion(env.revision, s.subscribers, k, result));
    var removed := TryRemove(env.hashes, s3.registry, n);
    var ok := match env.revision
              case Current => Retried(removed.Some?)
              case Legacy => true;
    if !ok then (s3, Failed(ConcurrencyRemoving))
    else if removed.Some? then (s3.(registry := removed.value), Done(result))
    else (s3, Done(result))
  }

  /** Completing the `Task` of a load whose nested loads all finished restores
      the dictionary and keeps the state valid. */
  lemma CompleteKeepsInvariant<C, P>(env: Env<C, P>, s0: State<C, P>, s: State<C, P>, n: AssemblyName, k: nat,
                                     result: Option<Assembly>)
    requires Valid(env.hashes, s0) && Valid(env.hashes, s) && k == |s0.handles| && k < |s.handles|
    requires Grows(s0, s)
    requires s.registry == s0.registry + [Entry(n, k)]
    requires TryRemove(env.hashes, s.registry, n) == Some(s0.registry)
    ensures var r := Complete(env, s, n, k, result);
            && Valid(env.hashes, r.0) && Grows(s0, r.0) && r.1 == Done(result) && r.0.registry == s0.registry
            && Ends(r.0.events, Completion(env.revision, s.subscribers, k, result))
  {
    var added := Completion(env.revision, s.subscribers, k, result);
    var u := s.(handles := s.handles[k := Published(result)], events := s.events + added, registry := s0.registry);
    assert Complete(env, s, n, k, result) == (u, Done(result));
    PublishKeepsInvariant(env.hashes, s0, s, k, result, added);
    assert u.events[|u.events| - |added|..] == added;
  }

  /** Publishing the result of task `k`, adding events about it, and putting
      the dictionary back as it was before the load keeps the state valid. */
  lemma PublishKeepsInvariant<C, P>(h: Hashes, s0: State<C, P>, s: State<C, P>, k: nat, result: Option<Assembly>,
                                    added: seq<Event>)
    requires Valid(h, s0) && Valid(h, s) && k == |s0.handles| && k < |s.handles| && Grows(s0, s)
    requires forall i :: 0 <= i < |added| ==> EventHandle(added[i]) == k
    ensures var u := s.(handles := s.handles[k := Published(result)], events := s.events + added, registry := s0.registry);
            Valid(h, u) && Grows(s0, u)
  {
    var u := s.(handles := s.handles[k := Published(result)], events := s.events + added, registry := s0.registry);
    CompletionKeepsEvents(s0.events, s.events, added, |s0.handles|, |u.handles|, k);
    forall i | 0 <= i < |u.registry|
      ensures u.registry[i].handle < |u.handles| && u.handles[u.registry[i].handle].Pending?
    {
      assert u.handles[u.registry[i].handle] == s0.handles[s0.registry[i].handle];
    }
  }

  /** The events of a completion refer to its own task. */
  lemma CompletionKeepsEvents(e0: seq<Event>, e: seq<Event>, added: seq<Event>, lo: nat, hi: nat, k: nat)
    requires e0 <= e && lo <= k < hi
    requires forall i :: |e0| <= i < |e| ==> EventHandle(e[i]) >= lo
    requires forall i :: 0 <= i < |e| ==> EventHandle(e[i]) < hi
    requires forall i :: 0 <= i < |added| ==> EventHandle(added[i]) == k
    ensures e0 <= e + added
    ensures forall i :: |e0| <= i < |e + added| ==> EventHandle((e + added)[i]) >= lo
    ensures forall i :: 0 <= i < |e + added| ==> EventHandle((e + added)[i]) < hi
  {
    forall i | 0 <= i < |e + added|
      ensures EventHandle((e + added)[i]) < hi
      ensures i >= |e0| ==> EventHandle((e + added)[i]) >= lo
    {
      if i < |e| {
        assert (e + added)[i] == e[i];
      } else {
        assert (e + added)[i] == added[i - |e|];
      }
    }
  }

  /** A state change that only replaces the isolation context or the data
      provider keeps the state valid. */
  lemma ReplaceKeepsInvariant<C, P>(h: Hashes, s: State<C, P>, c: C, p: P)
    requires Valid(h, s) && s.context.Some?
    ensures Valid(h, s.(context := Some(c), provider := p)) && Grows(s, s.(context := Some(c), provider := p))
  {
    ExtendsTransitive(s.tree, s.tree, s.tree);
  }

  /** `ResolveAssembly`: the runtime by name (current revision), then the
      rest of the resolution. */
  function Resolve<C, P>(env: Env<C, P>, s: State<C, P>, n: AssemblyName, scope: nat, fuel: nat): (r: (State<C, P>, Outcome))
    requires Valid(env.hashes, s) && s.context.Some? && scope < |s.tree.nodes|
    ensures Valid(env.hashes, r.0) && Grows(s, r.0)
    ensures r.1.Done? ==> r.0.registry == s.registry
    ensures r.1.Awaiting? ==> r.1.handle < |r.0.handles| && r.0.handles[r.1.handle].Pending?
    ensures env.revision == Current && env.loadByName(s.context.value, n).1.Some? ==>
              r == (s.(context := Some(env.loadByName(s.context.value, n).0)), Done(env.loadByName(s.context.value, n).1))
    ensures env.revision == Legacy ==> r == Fetch(env, s, n, scope, fuel)
    decreases fuel, 1, 0
  {
    var byName := if env.revision == Current then env.loadByName(s.context.value, n) else (s.context.value, None);
    ReplaceKeepsInvariant(env.hashes, s, byName.0, s.provider);
    var s1 := s.(context := Some(byName.0), provider := s.provider);
    if byName.1.Some? then (s1, Done(byName.1))
    else
      var r := Fetch(env, s1, n, scope, fuel);
      GrowsTransitive(s, s1, r.0);
      r
  }

  /** The part of `ResolveAssembly` after the runtime: the data provider,
      the dependencies, then the image. */
  function Fetch<C, P>(env: Env<C, P>, s: State<C, P>, n: AssemblyName, scope: nat, fuel: nat): (r: (State<C, P>, Outcome))
    requires Valid(env.hashes, s) && s.context.Some? && scope < |s.tree.nodes|
    ensures Valid(env.hashes, r.0) && Grows(s, r.0)
    ensures r.1.Done? ==> r.0.registry == s.registry
    ensures r.1.Awaiting? ==> r.1.handle < |r.0.handles| && r.0.handles[r.1.handle].Pending?
    ensures env.provide(s.provider, n, s.tree, scope).1.None? ==>
              r == (s.(provider := env.provide(s.provider, n, s.tree, scope).0), Done(None))
    decreases fuel, 0, 2
  {
    var provided := env.provide(s.provider, n, s.tree, scope);
    ReplaceKeepsInvariant(env.hashes, s, s.context.value, provided.0);
    var s2 := s.(provider := provided.0);
    var r := FetchProvided(env, s2, provided.1, scope, fuel);
    GrowsTransitive(s, s2, r.0);
    r
  }

  /** `ResolveAssembly` once the provider has answered: no data gives
      `null`, an unreadable image fails, and otherwise the dependencies are
      loaded first. */
  function FetchProvided<C, P>(env: Env<C, P>, s: State<C, P>, data: Option<AssemblyData>, scope: nat, fuel: nat): (r: (State<C, P>, Outcome))
    requires Valid(env.hashes, s) && s.context.Some? && scope < |s.tree.nodes|
    ensures Valid(env.hashes, r.0) && Grows(s, r.0)
    ensures r.1.Done? ==> r.0.registry == s.registry
    ensures r.1.Awaiting? ==> r.1.handle < |r.0.handles| && r.0.handles[r.1.handle].Pending?
    ensures data.None? ==> r == (s, Done(None))
    ensures data.Some? && Dependencies(env.hashes, env.references(data.value.dll), env.visible(s.context.value)).None? ==>
              r == (s, Failed(BadImage))
    decreases fuel, 0, 1
  {
    ExtendsTransitive(s.tree, s.tree, s.tree);
    if data.None? then (s, Done(None))
    else
      match Dependencies(env.hashes, env.references(data.value.dll), env.visible(s.context.value))
      case None => (s, Failed(BadImage))
      case Some(deps) =>
        if fuel == 0 then (s, OutOfFuel)
        else
          var f: nat := fuel - 1;
          FetchDependencies(env, s, data.value, deps, scope, f)
  }

  /** The rest of `ResolveAssembly` once the image is read: the dependency
      loads, then `Finish`. */
  function FetchDependencies<C, P>(env: Env<C, P>, s: State<C, P>, data: AssemblyData, deps: seq<AssemblyName>,
                                   scope: nat, f: nat): (r: (State<C, P>, Outcome))
    requires Valid(env.hashes, s) && s.context.Some? && scope < |s.tree.nodes|
    ensures Valid(env.hashes, r.0) && Grows(s, r.0)
    ensures r.1.Done? ==> r.0.registry == s.registry
    ensures r.1.Awaiting? ==> r.1.handle < |r.0.handles| && r.0.handles[r.1.handle].Pending?
    decreases f + 1, 0, 0
  {
    var loaded := LoadAll(env, s, deps, scope, f);
    var r := Finish(env.hashes, env.loadData, loaded.0, data, loaded.1);
    GrowsTransitive(s, loaded.0, r.0);
    r
  }

  /** The end of `ResolveAssembly` once every dependency load ran: the first
      of them that did not finish decides; a dependency not found makes the
      result `null`; otherwise the image is loaded. */
  function Finish<C, P>(h: Hashes, loadData: (C, AssemblyData) -> (C, Option<Assembly>), s: State<C, P>, data: AssemblyData,
                        outs: seq<Outcome>): (r: (State<C, P>, Outcome))
    requires Valid(h, s) && s.context.Some?
    ensures Valid(h, r.0) && Grows(s, r.0) && r.0.registry == s.registry && r.0.handles == s.handles
    ensures (exists i :: 0 <= i < |outs| && !outs[i].Done?) ==> r.1 in outs && !r.1.Done? && r.0 == s
    ensures (forall i :: 0 <= i < |outs| ==> outs[i].Done?) && (exists i :: 0 <= i < |outs| && outs[i].result.None?) ==>
              r == (s, Done(None))
    ensures (forall i :: 0 <= i < |outs| ==> outs[i].Done? && outs[i].result.Some?) ==>
              var (c, a) := loadData(s.context.value, data);
              r == (s.(context := Some(c)), Done(a))
  {
    ExtendsTransitive(s.tree, s.tree, s.tree);
    match Gather(outs)
    case Interrupted(o) => (s, o)
    case Settled(results) =>
      if None in results then (s, Done(None))
      else
        var (c, a) := loadData(s.context.value, data);
        ReplaceKeepsInvariant(h, s, c, s.provider);
        (s.(context := Some(c)), Done(a))
  }

  /** `GetAssemblyDependencies`: the references `refs` read from an image's
      metadata, less those whose name and version an assembly of
      `AllAssemblies` has, each once; `None` where the metadata cannot be
      read. */
  function Dependencies(h: Hashes, refs: Option<seq<AssemblyName>>, visible: seq<Assembly>): (r: Option<seq<AssemblyName>>)
    ensures r.None? <==> refs.None?
    ensures r.Some? ==> forall x :: x in r.value ==> x in refs.value
    ensures r.Some? ==> forall x, a :: x in r.value && a in visible ==> !NVEquals(h, x, a.identity)
    ensures r.Some? ==> forall i, j :: 0 <= i < j < |r.value| ==> !NVEquals(h, r.value[i], r.value[j])
  {
    match refs
    case None => None
    case Some(refs) =>
      var key := (x: AssemblyName) => NVHash(h, x);
      var names := NamesOf(visible);
      var deps := Sequences.ExceptBy(refs, names, key);
      assert forall x, a :: x in deps && a in visible ==> !NVEquals(h, x, a.identity) by {
        forall x, a | x in deps && a in visible
          ensures !NVEquals(h, x, a.identity)
        {
          var i :| 0 <= i < |visible| && visible[i] == a;
          assert names[i] == a.identity;
          assert key(a.identity) in Sequences.Keys(names, key);
          var j :| 0 <= j < |deps| && deps[j] == x;
        }
      }
      Some(deps)
  }

  /** No reference is lost: one that no visible assembly has is requested,
      up to name and version. */
  lemma DependenciesCoverReferences(h: Hashes, refs: seq<AssemblyName>, visible: seq<Assembly>, x: AssemblyName)
    requires x in refs && forall a :: a in visible ==> !NVEquals(h, x, a.identity)
    ensures exists y :: y in Dependencies(h, Some(refs), visible).value && NVEquals(h, x, y)
  {
    var key := (x: AssemblyName) => NVHash(h, x);
    var names := NamesOf(visible);
    var deps := Sequences.ExceptBy(refs, names, key);
    assert Dependencies(h, Some(refs), visible).value == deps;
    assert key(x) in Sequences.Keys(refs, key);
    forall m | m in names
      ensures key(m) != key(x)
    {
      var i :| 0 <= i < |names| && names[i] == m;
      assert visible[i] in visible;
    }
    assert key(x) in Sequences.Keys(deps, key);
    var y :| y in deps && key(y) == key(x);
  }

  /** How far an outcome is from finishing: `Task.WhenAll` waits for every
      task, so one that never finishes outweighs an exception, which outweighs
      a result. */
  function Rank(o: Outcome): nat {
    match o
    case Done(_) => 0
    case Failed(_) => 1
    case Awaiting(_) => 2
    case OutOfFuel => 3
  }

  /** The index of the first outcome of the highest rank. */
  function Worst(outs: seq<Outcome>): (i: nat)
    requires |outs| > 0
    ensures i < |outs|
    ensures forall j :: 0 <= j < |outs| ==> Rank(outs[j]) <= Rank(outs[i])
    ensures forall j :: 0 <= j < i ==> Rank(outs[j]) < Rank(outs[i])
  {
    if |outs| == 1 then 0
    else
      var w := Worst(outs[1..]);
      assert forall j :: 1 <= j < |outs| ==> outs[j] == outs[1..][j - 1];
      if Rank(outs[0]) >= Rank(outs[1..][w]) then 0 else w + 1
  }

  /** `await Task.WhenAll(...)` over the dependency loads: every result when
      all finished, otherwise what stopped them. */
  datatype Gathered = Settled(results: seq<Option<Assembly>>) | Interrupted(outcome: Outcome)

  function Gather(outs: seq<Outcome>): (g: Gathered)
    ensures g.Settled? <==> forall i :: 0 <= i < |outs| ==> outs[i].Done?
    ensures g.Settled? ==> |g.results| == |outs| && forall i :: 0 <= i < |outs| ==> g.results[i] == outs[i].result
    ensures g.Interrupted? ==> g.outcome in outs && !g.outcome.Done?
    ensures g.Interrupted? && g.outcome.Failed? ==>
              (forall i :: 0 <= i < |outs| ==> outs[i].Done? || outs[i].Failed?)
              && exists i :: 0 <= i < |outs| && outs[i] == g.outcome && forall j :: 0 <= j < i ==> outs[j].Done?
  {
    if |outs| == 0 || Rank(outs[Worst(outs)]) == 0 then
      Settled(seq(|outs|, i requires 0 <= i < |outs| => outs[i].result))
    else
      Interrupted(outs[Worst(outs)])
  }

  /** The dependency loads of `ResolveDependencies`, one after another, each
      in the requesting scope; every one of them runs whatever the others
      did. */
  function LoadAll<C, P>(env: Env<C, P>, s: State<C, P>, deps: seq<AssemblyName>, scope: nat, fuel: nat): (r: (State<C, P>, seq<Outcome>))
    requires Valid(env.hashes, s) && s.context.Some? && scope < |s.tree.nodes|
    ensures Valid(env.hashes, r.0) && Grows(s, r.0)
    ensures |r.1| == |deps|
    ensures (forall i :: 0 <= i < |r.1| ==> r.1[i].Done?) ==> r.0.registry == s.registry
    ensures forall i :: 0 <= i < |r.1| && r.1[i].Awaiting? ==>
              r.1[i].handle < |r.0.handles| && r.0.handles[r.1[i].handle].Pending?
    decreases fuel, 4, |deps|
  {
    if |deps| == 0 then
      ExtendsTransitive(s.tree, s.tree, s.tree);
      (s, [])
    else
      var (s1, o) := Load(env, s, deps[0], Some(scope), fuel);
      var (s2, os) := LoadAll(env, s1, deps[1..], scope, fuel);
      GrowsTransitive(s, s1, s2);
      SequencedOutcomes(s, s1, s2, o, os);
      (s2, [o] + os)
  }

  /** What a load followed by the remaining dependency loads leaves. */
  lemma SequencedOutcomes<C, P>(s: State<C, P>, s1: State<C, P>, s2: State<C, P>, o: Outcome, os: seq<Outcome>)
    requires Grows(s1, s2)
    requires o.Done? ==> s1.registry == s.registry
    requires o.Awaiting? ==> o.handle < |s1.handles| && s1.handles[o.handle].Pending?
    requires (forall i :: 0 <= i < |os| ==> os[i].Done?) ==> s2.registry == s1.registry
    requires forall i :: 0 <= i < |os| && os[i].Awaiting? ==> os[i].handle < |s2.handles| && s2.handles[os[i].handle].Pending?
    ensures (forall i :: 0 <= i < |[o] + os| ==> ([o] + os)[i].Done?) ==> s2.registry == s.registry
    ensures forall i :: 0 <= i < |[o] + os| && ([o] + os)[i].Awaiting? ==>
              ([o] + os)[i].handle < |s2.handles| && s2.handles[([o] + os)[i].handle].Pending?
  {
    var outs := [o] + os;
    assert outs[0] == o;
    assert forall i :: 1 <= i < |outs| ==> outs[i] == os[i - 1];
    if forall i :: 0 <= i < |outs| ==> outs[i].Done? {
      assert forall i :: 0 <= i < |os| ==> os[i] == outs[i + 1];
    }
  }

  /** `List.Remove`: drops the first occurrence of `x`, if any. */
  function RemoveFirst(xs: seq<nat>, x: nat): (r: seq<nat>)
    ensures x in xs ==> |r| == |xs| - 1 && multiset(r) == multiset(xs) - multiset{x}
    ensures x !in xs ==> r == xs
  {
    if |xs| == 0 then []
    else
      assert xs == [xs[0]] + xs[1..];
      if xs[0] == x then xs[1..]
      else [xs[0]] + RemoveFirst(xs[1..], x)
  }

  /** `SubscribeOnAssemblyLoad` (current revision). */
  function Subscribe<C, P>(s: State<C, P>, callback: nat): (u: State<C, P>)
    ensures u.subscribers == s.subscribers + [callback]
    ensures u.(subscribers := s.subscribers) == s
  {
    s.(subscribers := s.subscribers + [callback])
  }

  /** `UnsubscribeOnAssemblyLoad` (current revision): one registration of the
      callback fewer. */
  function Unsubscribe<C, P>(s: State<C, P>, callback: nat): (u: State<C, P>)
    ensures multiset(u.subscribers) == multiset(s.subscribers) - multiset{callback}
    ensures u.(subscribers := s.subscribers) == s
  {
    s.(subscribers := RemoveFirst(s.subscribers, callback))
  }

  /** Unsubscribing a callback just subscribed, and not subscribed before,
      restores the subscriptions. */
  lemma {:induction false} SubscribeUnsubscribe<C, P>(s: State<C, P>, callback: nat)
    requires callback !in s.subscribers
    ensures Unsubscribe(Subscribe(s, callback), callback) == s
  {
    RemoveLast(s.subscribers, callback);
  }

  lemma {:induction false} RemoveLast(xs: seq<nat>, x: nat)
    requires x !in xs
    ensures RemoveFirst(xs + [x], x) == xs
  {
    if |xs| > 0 {
      assert (xs + [x])[1..] == xs[1..] + [x];
      RemoveLast(xs[1..], x);
    }
  }

  /** `Dispose` (first revision): disposes the isolation context once and
      drops it. */
  function Dispose<C, P>(s: State<C, P>): (u: State<C, P>)
    ensures u.context.None?
    ensures u.events == s.events + (if s.context.Some? then [ContextDisposed] else [])
    ensures u.(context := s.context, events := s.events) == s
  {
    if s.context.Some? then s.(context := None, events := s.events + [ContextDisposed]) else s
  }

  /** Disposing twice disposes the context once. */
  lemma DisposeIsIdempotent<C, P>(s: State<C, P>)
    ensures Dispose(Dispose(s)) == Dispose(s)
    ensures multiset(Dispose(Dispose(s)).events)[ContextDisposed] <= multiset(s.events)[ContextDisposed] + 1
  {
  }

  /** A disposed loader keeps a valid state, and every load on it returns
      `null` without touching anything. */
  lemma DisposedLoaderLoadsNothing<C, P>(env: Env<C, P>, s: State<C, P>, n: AssemblyName, parent: Option<nat>, fuel: nat)
    requires Valid(env.hashes, s) && (parent.Some? ==> parent.value < |s.tree.nodes|)
    ensures Valid(env.hashes, Dispose(s))
    ensures Load(env, Dispose(s), n, parent, fuel) == (Dispose(s), Done(None))
  {
    var u := Dispose(s);
    assert forall i :: 0 <= i < |u.events| ==> EventHandle(u.events[i]) < |u.handles| by {
      forall i | 0 <= i < |u.events|
        ensures EventHandle(u.events[i]) < |u.handles|
      {
        if i < |s.events| {
          assert u.events[i] == s.events[i];
        }
      }
    }
  }

  /** A name some assembly of the context already answers to is served from
      the context: the state is left alone, no scope opened, no data fetched. */
  lemma LoadedAssemblyIsReused<C, P>(env: Env<C, P>, s: State<C, P>, n: AssemblyName, parent: Option<nat>, fuel: nat, a: Assembly)
    requires Valid(env.hashes, s) && (parent.Some? ==> parent.value < |s.tree.nodes|) && s.context.Some?
    requires a in env.visible(s.context.value) && ByNameEquals(env.hashes, n, a.identity)
    ensures var r := Load(env, s, n, parent, fuel);
            && r.0 == s && r.1.Done? && r.1.result.Some?
            && r.1.result.value in env.visible(s.context.value)
            && ByNameEquals(env.hashes, n, r.1.result.value.identity)
  {
  }

  /** A second load of a name already in flight waits on the first load's
      task instead of loading again, and changes nothing. */
  lemma InFlightLoadIsShared<C, P>(env: Env<C, P>, s: State<C, P>, n: AssemblyName, parent: Option<nat>, fuel: nat, e: Entry)
    requires Valid(env.hashes, s) && (parent.Some? ==> parent.value < |s.tree.nodes|) && s.context.Some?
    requires AlreadyLoaded(env, s, n).None?
    requires e in s.registry && ByNameEquals(env.hashes, n, e.key)
    ensures Load(env, s, n, parent, fuel) == (s, Awaiting(e.handle))
  {
    InFlightEntryIsUnique(env.hashes, s, n, e);
  }

  /** The dictionary holds at most one entry a name matches. */
  lemma InFlightEntryIsUnique<C, P>(h: Hashes, s: State<C, P>, n: AssemblyName, e: Entry)
    requires Valid(h, s)
    requires e in s.registry && ByNameEquals(h, n, e.key)
    ensures AlreadyLoading(h, s.registry, n) == Some(e)
  {
    var f := AlreadyLoading(h, s.registry, n).value;
    var i :| 0 <= i < |s.registry| && s.registry[i] == e;
    var j :| 0 <= j < |s.registry| && s.registry[j] == f;
    if i < j {
      assert ByNameEquals(h, s.registry[i].key, s.registry[j].key);
    } else if j < i {
      assert ByNameEquals(h, s.registry[j].key, s.registry[i].key);
    }
  }

  /** A load not served from the context or from a load in flight opens a
      new scope named after the assembly, below the requesting scope. */
  lemma FreshLoadOpensScope<C, P>(env: Env<C, P>, s: State<C, P>, n: AssemblyName, parent: Option<nat>, fuel: nat)
    requires Valid(env.hashes, s) && (parent.Some? ==> parent.value < |s.tree.nodes|) && s.context.Some?
    requires AlreadyLoaded(env, s, n).None? && AlreadyLoading(env.hashes, s.registry, n).None?
    ensures var r := Load(env, s, n, parent, fuel);
            |s.tree.nodes| < |r.0.tree.nodes|
            && r.0.tree.nodes[|s.tree.nodes|].name == n
            && r.0.tree.nodes[|s.tree.nodes|].parent == parent
  {
    var (tree, scope) := Plant(s.tree, n, parent);
    var r := Perform(env, s.(tree := tree), n, scope, fuel);
    assert Extends(tree, r.0.tree);
  }

  /** A load that ended in `BadImageFormatException` never completes its
      task nor leaves the dictionary: every later load of the name, unless the
      context shows the assembly meanwhile, waits on that task for good. */
  lemma FaultedLoadStaysInFlight<C, P>(env: Env<C, P>, s: State<C, P>, n: AssemblyName, parent: Option<nat>, fuel: nat,
                                      m: AssemblyName, parent2: Option<nat>, fuel2: nat)
    requires Valid(env.hashes, s) && (parent.Some? ==> parent.value < |s.tree.nodes|)
    requires Load(env, s, n, parent, fuel).1 == Failed(BadImage)
    requires ByNameEquals(env.hashes, m, n)
    requires var u := Load(env, s, n, parent, fuel).0;
             AlreadyLoaded(env, u, m).None? && (parent2.Some? ==> parent2.value < |u.tree.nodes|)
    ensures var u := Load(env, s, n, parent, fuel).0;
            Load(env, u, m, parent2, fuel2).0 == u && Load(env, u, m, parent2, fuel2).1.Awaiting?
  {
    var u := Load(env, s, n, parent, fuel).0;
    FaultedLoadIsRegistered(env, s, n, parent, fuel);
    var e := u.registry[|s.registry|];
    InFlightLoadIsShared(env, u, m, parent2, fuel2, e);
  }

  /** A load that ended in `BadImageFormatException` leaves its entry in the
      dictionary. */
  lemma FaultedLoadIsRegistered<C, P>(env: Env<C, P>, s: State<C, P>, n: AssemblyName, parent: Option<nat>, fuel: nat)
    requires Valid(env.hashes, s) && (parent.Some? ==> parent.value < |s.tree.nodes|)
    requires Load(env, s, n, parent, fuel).1 == Failed(BadImage)
    ensures var u := Load(env, s, n, parent, fuel).0;
            u.context.Some? && |s.registry| < |u.registry| && u.registry[|s.registry|].key == n
  {
    FailedLoadPerforms(env, s, n, parent, fuel);
    var (tree, scope) := Plant(s.tree, n, parent);
    FaultedPerformIsRegistered(env, s.(tree := tree), n, scope, fuel);
  }

  /** Only a load that went as far as `PerformAssemblyLoad` can fail. */
  lemma FailedLoadPerforms<C, P>(env: Env<C, P>, s: State<C, P>, n: AssemblyName, parent: Option<nat>, fuel: nat)
    requires Valid(env.hashes, s) && (parent.Some? ==> parent.value < |s.tree.nodes|)
    requires Load(env, s, n, parent, fuel).1.Failed?
    ensures s.context.Some? && AlreadyLoading(env.hashes, s.registry, n).None?
    ensures Load(env, s, n, parent, fuel)
            == Perform(env, s.(tree := Plant(s.tree, n, parent).0), n, Plant(s.tree, n, parent).1, fuel)
  {
  }

  lemma FaultedPerformIsRegistered<C, P>(env: Env<C, P>, s: State<C, P>, n: AssemblyName, scope: nat, fuel: nat)
    requires Valid(env.hashes, s) && s.context.Some? && scope < |s.tree.nodes|
    requires AlreadyLoading(env.hashes, s.registry, n).None?
    requires Perform(env, s, n, scope, fuel).1 == Failed(BadImage)
    ensures var u := Perform(env, s, n, scope, fuel).0;
            u.context.Some? && |s.registry| < |u.registry| && u.registry[|s.registry|].key == n
  {
  }

  /** The dependency loads of the two revisions agree where the current
      revision's extra steps do nothing: no callback subscribed, and the
      runtime finding nothing by name. */
  ghost predicate FindsNothingByName<C(!new), P>(env: Env<C, P>) {
    forall c, n :: env.loadByName(c, n) == (c, None)
  }

  lemma {:induction false} LoadRevisionsAgree<C(!new), P>(env: Env<C, P>, s: State<C, P>, n: AssemblyName, parent: Option<nat>, fuel: nat)
    requires Valid(env.hashes, s) && (parent.Some? ==> parent.value < |s.tree.nodes|)
    requires s.subscribers == [] && FindsNothingByName(env)
    ensures Load(env.(revision := Current), s, n, parent, fuel) == Load(env.(revision := Legacy), s, n, parent, fuel)
    decreases fuel, 3, 0
  {
    var cur, leg := env.(revision := Current), env.(revision := Legacy);
    if s.context.Some? && AlreadyLoaded(env, s, n).None? && AlreadyLoading(env.hashes, s.registry, n).None? {
      var (tree, scope) := Plant(s.tree, n, parent);
      PerformRevisionsAgree(env, s.(tree := tree), n, scope, fuel);
    }
  }

  lemma {:induction false} PerformRevisionsAgree<C(!new), P>(env: Env<C, P>, s: State<C, P>, n: AssemblyName, scope: nat, fuel: nat)
    requires Valid(env.hashes, s) && s.context.Some? && scope < |s.tree.nodes|
    requires AlreadyLoading(env.hashes, s.registry, n).None?
    requires s.subscribers == [] && FindsNothingByName(env)
    ensures Perform(env.(revision := Current), s, n, scope, fuel) == Perform(env.(revision := Legacy), s, n, scope, fuel)
    decreases fuel, 2, 0
  {
    var cur, leg := env.(revision := Current), env.(revision := Legacy);
    var k := |s.handles|;
    var added := TryAdd(env.hashes, s.registry, n, k);
    if added.Some? {
      var s1 := s.(registry := added.value, handles := s.handles + [Pending]);
      RegisterKeepsInvariant(env, s, n);
      ResolveRevisionsAgree(env, s1, n, scope, fuel);
      var (s2, o) := Resolve(cur, s1, n, scope, fuel);
      AfterResolveRevisionsAgree(env, s, s1, s2, n, o);
    }
  }

  /** Without subscribers, both revisions complete a resolved load alike. */
  lemma AfterResolveRevisionsAgree<C, P>(env: Env<C, P>, s: State<C, P>, s1: State<C, P>, s2: State<C, P>, n: AssemblyName,
                                        o: Outcome)
    requires Valid(env.hashes, s) && Valid(env.hashes, s1) && Valid(env.hashes, s2)
    requires TryAdd(env.hashes, s.registry, n, |s.handles|).Some?
    requires s1 == s.(registry := s.registry + [Entry(n, |s.handles|)], handles := s.handles + [Pending])
    requires Grows(s, s1) && Grows(s1, s2)
    requires o.Done? ==> s2.registry == s1.registry
    requires o.Awaiting? ==> o.handle < |s2.handles| && s2.handles[o.handle].Pending?
    requires s.subscribers == []
    ensures AfterResolve(env.(revision := Current), s, s1, s2, n, o) == AfterResolve(env.(revision := Legacy), s, s1, s2, n, o)
  {
    if o.Done? {
      TryAddRemove(env.hashes, s.registry, n, |s.handles|);
      assert Completion(Current, [], |s.handles|, o.result) == Completion(Legacy, [], |s.handles|, o.result);
    }
  }

  lemma {:induction false} ResolveRevisionsAgree<C(!new), P>(env: Env<C, P>, s: State<C, P>, n: AssemblyName, scope: nat, fuel: nat)
    requires Valid(env.hashes, s) && s.context.Some? && scope < |s.tree.nodes|
    requires s.subscribers == [] && FindsNothingByName(env)
    ensures Resolve(env.(revision := Current), s, n, scope, fuel) == Resolve(env.(revision := Legacy), s, n, scope, fuel)
    decreases fuel, 1, 0
  {
    var cur := env.(revision := Current);
    assert cur.loadByName(s.context.value, n) == (s.context.value, None);
    ReplaceKeepsInvariant(env.hashes, s, s.context.value, s.provider);
    FetchRevisionsAgree(env, s.(context := Some(s.context.value), provider := s.provider), n, scope, fuel);
  }

  lemma {:induction false} FetchRevisionsAgree<C(!new), P>(env: Env<C, P>, s: State<C, P>, n: AssemblyName, scope: nat, fuel: nat)
    requires Valid(env.hashes, s) && s.context.Some? && scope < |s.tree.nodes|
    requires s.subscribers == [] && FindsNothingByName(env)
    ensures Fetch(env.(revision := Current), s, n, scope, fuel) == Fetch(env.(revision := Legacy), s, n, scope, fuel)
    decreases fuel, 0, 2
  {
    var provided := env.provide(s.provider, n, s.tree, scope);
    ReplaceKeepsInvariant(env.hashes, s, s.context.value, provided.0);
    assert s.(context := Some(s.context.value), provider := provided.0) == s.(provider := provided.0);
    FetchProvidedRevisionsAgree(env, s.(provider := provided.0), provided.1, scope, fuel);
  }

  lemma {:induction false} FetchProvidedRevisionsAgree<C(!new), P>(env: Env<C, P>, s: State<C, P>, data: Option<AssemblyData>,
                                                                   scope: nat, fuel: nat)
    requires Valid(env.hashes, s) && s.context.Some? && scope < |s.tree.nodes|
    requires s.subscribers == [] && FindsNothingByName(env)
    ensures FetchProvided(env.(revision := Current), s, data, scope, fuel) == FetchProvided(env.(revision := Legacy), s, data, scope, fuel)
    decreases fuel, 0, 1
  {
    var cur, leg := env.(revision := Current), env.(revision := Legacy);
    if data.Some? {
      var deps := Dependencies(env.hashes, env.references(data.value.dll), env.visible(s.context.value));
      if deps.Some? && fuel > 0 {
        var f: nat := fuel - 1;
        LoadAllRevisionsAgree(env, s, deps.value, scope, f);
        FetchDependenciesCongruent(cur, leg, s, data.value, deps.value, scope, f);
        FetchProvidedUnfolds(cur, s, data.value, deps.value, scope, f);
        FetchProvidedUnfolds(leg, s, data.value, deps.value, scope, f);
      }
    }
  }

  /** With an image whose references resolve and fuel left, `FetchProvided`
      is `FetchDependencies` on one unit of fuel less. */
  lemma FetchProvidedUnfolds<C, P>(env: Env<C, P>, s: State<C, P>, data: AssemblyData, deps: seq<AssemblyName>, scope: nat, f: nat)
    requires Valid(env.hashes, s) && s.context.Some? && scope < |s.tree.nodes|
    requires Dependencies(env.hashes, env.references(data.dll), env.visible(s.context.value)) == Some(deps)
    ensures FetchProvided(env, s, Some(data), scope, f + 1) == FetchDependencies(env, s, data, deps, scope, f)
  {
  }

  /** `FetchDependencies` depends on the environment only through the
      dependency loads, the hashes and `loadData`. */
  lemma FetchDependenciesCongruent<C, P>(e1: Env<C, P>, e2: Env<C, P>, s: State<C, P>, data: AssemblyData,
                                         deps: seq<AssemblyName>, scope: nat, f: nat)
    requires Valid(e1.hashes, s) && s.context.Some? && scope < |s.tree.nodes|
    requires e2.hashes == e1.hashes && e2.loadData == e1.loadData
    requires LoadAll(e1, s, deps, scope, f) == LoadAll(e2, s, deps, scope, f)
    ensures FetchDependencies(e1, s, data, deps, scope, f) == FetchDependencies(e2, s, data, deps, scope, f)
  {
  }

  lemma {:induction false} LoadAllRevisionsAgree<C(!new), P>(env: Env<C, P>, s: State<C, P>, deps: seq<AssemblyName>, scope: nat, fuel: nat)
    requires Valid(env.hashes, s) && s.context.Some? && scope < |s.tree.nodes|
    requires s.subscribers == [] && FindsNothingByName(env)
    ensures LoadAll(env.(revision := Current), s, deps, scope, fuel) == LoadAll(env.(revision := Legacy), s, deps, scope, fuel)
    decreases fuel, 4, |deps|
  {
    if |deps| > 0 {
      LoadRevisionsAgree(env, s, deps[0], Some(scope), fuel);
      var (s1, o) := Load(env.(revision := Current), s, deps[0], Some(scope), fuel);
      LoadAllRevisionsAgree(env, s1, deps[1..], scope, fuel);
    }
  }
}
