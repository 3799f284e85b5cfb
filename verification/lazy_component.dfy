/** The `Lazy` component, both revisions: find the component a `Name`
    designates among the `Components` sections of the manifests, load its
    module, and render it or a fallback.

    Every component entry with a non-blank `TypeFullName` is a candidate and
    is scored against `Name`: 3 when `Name` is its `TypeFullName`, else 2 when
    it is its lazy `Name`, else 1 when its `TypeFullName` ends with `Name`,
    else 0. The candidates are grouped by score and the highest group is the
    set of best matches; a single best match is the answer. The current
    revision (src/src/LazyComponents) first drops the score-0 candidates; the
    first (src/LazyComponents) does not. The assembly loader, the manifest
    repository's reply and `Assembly.GetType` are parameters. */
module LazyComponents {
  import opened Wrappers
  import opened Text
  import Sequences
  import opened Identity
  import opened Manifests

  /** A component entry: the module whose manifest lists it, its
      `TypeFullName` and its optional lazy `Name`. */
  datatype Candidate = Candidate(owner: string, typeFullName: string, lazyName: Option<string>)

  /** Lines 180-192: the entries of one module's component objects whose
      `TypeFullName` is not blank, in order. */
  function Entries(owner: string, objs: seq<seq<(string, Json)>>): (r: seq<Candidate>)
    ensures forall c :: c in r ==> c.owner == owner && !IsBlank(c.typeFullName)
    ensures forall c :: c in r ==> exists o :: o in objs && StringValue(o, "TypeFullName") == Some(c.typeFullName)
                                                   && StringValue(o, "Name") == c.lazyName
    ensures forall o :: o in objs && !IsNullOrWhiteSpace(StringValue(o, "TypeFullName")) ==>
              Candidate(owner, StringValue(o, "TypeFullName").value, StringValue(o, "Name")) in r
  {
    if |objs| == 0 then []
    else
      var o := objs[0];
      var t := StringValue(o, "TypeFullName");
      var head := if IsNullOrWhiteSpace(t) then [] else [Candidate(owner, t.value, StringValue(o, "Name"))];
      assert objs == [o] + objs[1..];
      head + Entries(owner, objs[1..])
  }

  /** The objects of a manifest's `Components` section. */
  function ComponentObjects(m: ModuleManifest): seq<seq<(string, Json)>> {
    match Section(m, "Components")
    case Some(t) => ObjectChildren(t)
    case None => []
  }

  function CandidatesOf(ms: seq<ModuleManifest>): (r: seq<Candidate>)
    ensures forall c :: c in r <==> exists m :: m in ms && c in Entries(m.moduleName, ComponentObjects(m))
  {
    if |ms| == 0 then []
    else
      var r := Entries(ms[0].moduleName, ComponentObjects(ms[0])) + CandidatesOf(ms[1..]);
      assert ms == [ms[0]] + ms[1..];
      r
  }

  /** Lines 177-204 up to the scores: every candidate of the first manifest
      per module that has a `Components` section. */
  function Candidates(ms: seq<ModuleManifest>): (r: seq<Candidate>)
    ensures forall c :: c in r <==> exists m :: m in WithSection(ms, "Components")
                                              && c in Entries(m.moduleName, ComponentObjects(m))
  {
    CandidatesOf(WithSection(ms, "Components"))
  }

  /** Lines 196-202: how well an entry matches `name`, from 3 (its type name)
      down to 0 (unrelated). */
  function Score(c: Candidate, name: string): (r: nat)
    ensures r <= 3
    ensures r == 3 <==> c.typeFullName == name
    ensures r == 2 <==> c.typeFullName != name && c.lazyName == Some(name)
    ensures r == 0 <==> c.typeFullName != name && c.lazyName != Some(name) && !EndsWith(c.typeFullName, name)
  {
    if c.typeFullName == name then 3
    else if c.lazyName == Some(name) then 2
    else if EndsWith(c.typeFullName, name) then 1
    else 0
  }

  function ScoreOf(name: string): Candidate -> nat {
    c => Score(c, name)
  }

  function Positive(name: string): Candidate -> bool {
    c => Score(c, name) > 0
  }

  /** The highest score among the candidates. */
  function MaxScore(cs: seq<Candidate>, name: string): (r: nat)
    requires |cs| > 0
    ensures exists i :: 0 <= i < |cs| && Score(cs[i], name) == r
    ensures forall i :: 0 <= i < |cs| ==> Score(cs[i], name) <= r
  {
    if |cs| == 1 then Score(cs[0], name)
    else
      var m := MaxScore(cs[1..], name);
      assert forall i :: 1 <= i < |cs| ==> cs[i] == cs[1..][i - 1];
      if Score(cs[0], name) >= m then Score(cs[0], name)
      else
        assert exists i :: 0 <= i < |cs| && Score(cs[i], name) == m by {
          var j :| 0 <= j < |cs[1..]| && Score(cs[1..][j], name) == m;
          assert Score(cs[j + 1], name) == m;
        }
        m
  }

  /** `OrderByDescending(g => g.Key).FirstOrDefault()`: a group of the
      highest key (the first of them, the sort being stable). */
  function TopGroup<T(==)>(groups: seq<(nat, T)>): (r: Option<(nat, T)>)
    ensures r.None? <==> |groups| == 0
    ensures r.Some? ==> r.value in groups
    ensures r.Some? ==> forall i :: 0 <= i < |groups| ==> groups[i].0 <= r.value.0
  {
    if |groups| == 0 then None
    else
      var rest := TopGroup(groups[1..]);
      assert forall i :: 1 <= i < |groups| ==> groups[i] == groups[1..][i - 1];
      if rest.None? || rest.value.0 <= groups[0].0 then Some(groups[0]) else rest
  }

  /** `GroupBy(i => i.Score).OrderByDescending(i => i.Key).FirstOrDefault()`
      (lines 208-211 of the current revision, lines 66-70 of the first). */
  function BestMatches(cs: seq<Candidate>, name: string): Option<seq<Candidate>> {
    match TopGroup(Sequences.GroupBy(cs, ScoreOf(name)))
    case None => None
    case Some(g) => Some(g.1)
  }

  /** The best matches are, in order, the candidates of the highest score:
      the grouping and sorting agree with the reference. */
  lemma BestMatchesAreTopScorers(cs: seq<Candidate>, name: string)
    ensures |cs| == 0 ==> BestMatches(cs, name) == None
    ensures |cs| > 0 ==> BestMatches(cs, name) == Some(Sequences.Group(cs, ScoreOf(name), MaxScore(cs, name)))
  {
    if |cs| > 0 {
      var groups := Sequences.GroupBy(cs, ScoreOf(name));
      TopGroupHasMaxScore(cs, name);
      var g := TopGroup(groups).value;
      var i :| 0 <= i < |groups| && groups[i] == g;
    }
  }

  /** The highest key among the score groups is the highest score. */
  lemma TopGroupHasMaxScore(cs: seq<Candidate>, name: string)
    requires |cs| > 0
    ensures TopGroup(Sequences.GroupBy(cs, ScoreOf(name))).Some?
    ensures TopGroup(Sequences.GroupBy(cs, ScoreOf(name))).value.0 == MaxScore(cs, name)
  {
    var groups := Sequences.GroupBy(cs, ScoreOf(name));
    var m := MaxScore(cs, name);
    assert ScoreOf(name)(cs[0]) in Sequences.Keys(cs, ScoreOf(name)) by {
      assert cs[0] in cs;
    }
    var g := TopGroup(groups).value;
    assert g.0 <= m by {
      var i :| 0 <= i < |groups| && groups[i] == g;
      assert g.0 in Sequences.Keys(cs, ScoreOf(name));
      var x :| x in cs && ScoreOf(name)(x) == g.0;
      var a :| 0 <= a < |cs| && cs[a] == x;
    }
    assert m <= g.0 by {
      var k :| 0 <= k < |cs| && Score(cs[k], name) == m;
      assert ScoreOf(name)(cs[k]) in Sequences.Keys(cs, ScoreOf(name)) by {
        assert cs[k] in cs;
      }
      var b :| 0 <= b < |groups| && groups[b].0 == m;
    }
  }

  /** Candidate `i` beats every other candidate. */
  predicate UniqueBest(cs: seq<Candidate>, name: string, i: nat) {
    i < |cs| && forall j :: 0 <= j < |cs| && j != i ==> Score(cs[j], name) < Score(cs[i], name)
  }

  /** A candidate that beats every other is alone in the group of the
      highest score. */
  lemma TopGroupOfUnique(cs: seq<Candidate>, name: string, i: nat)
    requires UniqueBest(cs, name, i)
    ensures Sequences.Group(cs, ScoreOf(name), MaxScore(cs, name)) == [cs[i]]
  {
    var m := MaxScore(cs, name);
    var k :| 0 <= k < |cs| && Score(cs[k], name) == m;
    assert Score(cs[i], name) >= Score(cs[k], name);
    Sequences.GroupOne(cs, ScoreOf(name), m, i);
  }

  /** Without a candidate that beats every other, the group of the highest
      score holds at least two. */
  lemma TopGroupWithoutUnique(cs: seq<Candidate>, name: string)
    requires |cs| > 0
    requires forall i: nat :: !UniqueBest(cs, name, i)
    ensures |Sequences.Group(cs, ScoreOf(name), MaxScore(cs, name))| >= 2
  {
    var m := MaxScore(cs, name);
    var k :| 0 <= k < |cs| && Score(cs[k], name) == m;
    assert !UniqueBest(cs, name, k);
    var j :| 0 <= j < |cs| && j != k && Score(cs[j], name) >= Score(cs[k], name);
    assert Score(cs[j], name) == m;
    if j < k {
      Sequences.GroupTwo(cs, ScoreOf(name), m, j, k);
    } else {
      Sequences.GroupTwo(cs, ScoreOf(name), m, k, j);
    }
  }

  /** The group of the highest score is never empty. */
  lemma TopGroupIsInhabited(cs: seq<Candidate>, name: string)
    requires |cs| > 0
    ensures |Sequences.Group(cs, ScoreOf(name), MaxScore(cs, name))| >= 1
  {
    var m := MaxScore(cs, name);
    var k :| 0 <= k < |cs| && Score(cs[k], name) == m;
    assert cs[k] in cs && Sequences.HasKey(ScoreOf(name), m)(cs[k]);
    assert cs[k] in Sequences.Group(cs, ScoreOf(name), m);
  }

  /** What the selection yields: a single best match, none, or several. */
  datatype Resolution = Resolved(owner: string, typeFullName: string) | NotFound | Ambiguous

  /** The candidates the grouping sees: the current revision drops the
      score-0 ones (line 207). */
  function Pool(cs: seq<Candidate>, name: string, positiveOnly: bool): seq<Candidate> {
    if positiveOnly then Sequences.Filter(cs, Positive(name)) else cs
  }

  /** Lines 206-227 of the current revision (`positiveOnly`), lines 66-83 of
      the first. */
  function Resolve(cs: seq<Candidate>, name: string, positiveOnly: bool): Resolution {
    match BestMatches(Pool(cs, name, positiveOnly), name)
    case None => NotFound
    case Some(best) =>
      if |best| == 0 then NotFound
      else if |best| > 1 then Ambiguous
      else Resolved(best[0].owner, best[0].typeFullName)
  }

  /** When some candidate scores above 0, dropping the score-0 candidates
      keeps the highest score. */
  lemma PoolKeepsMaxScore(cs: seq<Candidate>, name: string, i0: nat)
    requires i0 < |cs| && Score(cs[i0], name) > 0
    ensures |Pool(cs, name, true)| > 0 && MaxScore(Pool(cs, name, true), name) == MaxScore(cs, name)
  {
    var pool := Pool(cs, name, true);
    var m := MaxScore(cs, name);
    assert cs[i0] in pool by {
      assert cs[i0] in cs && Positive(name)(cs[i0]);
    }
    var mp := MaxScore(pool, name);
    assert mp <= m by {
      var a :| 0 <= a < |pool| && Score(pool[a], name) == mp;
      assert pool[a] in pool;
      var a' :| 0 <= a' < |cs| && cs[a'] == pool[a];
      assert Score(cs[a'], name) <= m;
    }
    assert m <= mp by {
      var k :| 0 <= k < |cs| && Score(cs[k], name) == m;
      assert Score(cs[i0], name) <= m;
      assert cs[k] in cs && Positive(name)(cs[k]);
      assert cs[k] in pool;
      var b :| 0 <= b < |pool| && pool[b] == cs[k];
      assert Score(pool[b], name) <= mp;
    }
  }

  /** When some candidate scores above 0, the current revision's filter does
      not change the best matches. */
  lemma PositiveFilterKeepsTheTop(cs: seq<Candidate>, name: string, i0: nat)
    requires i0 < |cs| && Score(cs[i0], name) > 0
    ensures BestMatches(Pool(cs, name, true), name) == Some(Sequences.Group(cs, ScoreOf(name), MaxScore(cs, name)))
  {
    var m := MaxScore(cs, name);
    PoolKeepsMaxScore(cs, name, i0);
    BestMatchesAreTopScorers(Pool(cs, name, true), name);
    assert Score(cs[i0], name) <= m;
    forall x | ScoreOf(name)(x) == m
      ensures Positive(name)(x)
    {
    }
    Sequences.GroupOfFilter(cs, Positive(name), ScoreOf(name), m);
  }

  /** Either revision resolves `Name` to the candidate that beats every other,
      the current one only when that candidate scores above 0. */
  lemma ResolvesToUniqueBest(cs: seq<Candidate>, name: string, positiveOnly: bool, i: nat)
    requires UniqueBest(cs, name, i)
    requires positiveOnly ==> Score(cs[i], name) > 0
    ensures Resolve(cs, name, positiveOnly) == Resolved(cs[i].owner, cs[i].typeFullName)
  {
    if positiveOnly {
      PositiveFilterKeepsTheTop(cs, name, i);
    } else {
      BestMatchesAreTopScorers(cs, name);
    }
    TopGroupOfUnique(cs, name, i);
    ResolveOfBest(cs, name, positiveOnly, [cs[i]]);
  }

  /** With candidates to choose from but none that beats every other, the
      selection is ambiguous (the current revision: among the positive
      scores). */
  lemma AmbiguousWithoutUniqueBest(cs: seq<Candidate>, name: string, positiveOnly: bool, i0: nat)
    requires i0 < |cs| && (positiveOnly ==> Score(cs[i0], name) > 0)
    requires forall i: nat :: !UniqueBest(cs, name, i)
    ensures Resolve(cs, name, positiveOnly) == Ambiguous
  {
    if positiveOnly {
      PositiveFilterKeepsTheTop(cs, name, i0);
    } else {
      BestMatchesAreTopScorers(cs, name);
    }
    TopGroupWithoutUnique(cs, name);
    ResolveOfBest(cs, name, positiveOnly, Sequences.Group(cs, ScoreOf(name), MaxScore(cs, name)));
  }

  /** The selection once the best matches are known: one match resolves,
      several are ambiguous. */
  lemma ResolveOfBest(cs: seq<Candidate>, name: string, positiveOnly: bool, best: seq<Candidate>)
    requires BestMatches(Pool(cs, name, positiveOnly), name) == Some(best)
    ensures |best| == 1 ==> Resolve(cs, name, positiveOnly) == Resolved(best[0].owner, best[0].typeFullName)
    ensures |best| >= 2 ==> Resolve(cs, name, positiveOnly) == Ambiguous
  {
  }

  /** The current revision resolves `Name` to the candidate that beats every
      other with a positive score, finds nothing exactly when no candidate
      scores above 0, and is ambiguous otherwise. */
  lemma CurrentResolution(cs: seq<Candidate>, name: string)
    ensures Resolve(cs, name, true) == NotFound <==> forall i :: 0 <= i < |cs| ==> Score(cs[i], name) == 0
    ensures forall i: nat :: UniqueBest(cs, name, i) && Score(cs[i], name) > 0 ==>
              Resolve(cs, name, true) == Resolved(cs[i].owner, cs[i].typeFullName)
    ensures Resolve(cs, name, true).Resolved? ==>
              exists i: nat :: UniqueBest(cs, name, i) && Score(cs[i], name) > 0
                               && Resolve(cs, name, true) == Resolved(cs[i].owner, cs[i].typeFullName)
  {
    if forall i :: 0 <= i < |cs| ==> Score(cs[i], name) == 0 {
      Sequences.FilterNone(cs, Positive(name));
      BestMatchesAreTopScorers(Pool(cs, name, true), name);
    } else {
      var i0 :| 0 <= i0 < |cs| && Score(cs[i0], name) > 0;
      PositiveFilterKeepsTheTop(cs, name, i0);
      TopGroupIsInhabited(cs, name);
      forall i: nat | UniqueBest(cs, name, i) && Score(cs[i], name) > 0
        ensures Resolve(cs, name, true) == Resolved(cs[i].owner, cs[i].typeFullName)
      {
        ResolvesToUniqueBest(cs, name, true, i);
      }
      if exists i: nat :: UniqueBest(cs, name, i) {
        var i: nat :| UniqueBest(cs, name, i);
        assert Score(cs[i], name) >= Score(cs[i0], name);
        ResolvesToUniqueBest(cs, name, true, i);
      } else {
        AmbiguousWithoutUniqueBest(cs, name, true, i0);
      }
    }
  }

  /** The first revision resolves `Name` to the candidate that beats every
      other, whatever its score, finds nothing only without candidates, and
      is ambiguous otherwise. */
  lemma FirstRevisionResolution(cs: seq<Candidate>, name: string)
    ensures Resolve(cs, name, false) == NotFound <==> |cs| == 0
    ensures forall i: nat :: UniqueBest(cs, name, i) ==>
              Resolve(cs, name, false) == Resolved(cs[i].owner, cs[i].typeFullName)
    ensures Resolve(cs, name, false).Resolved? ==>
              exists i: nat :: UniqueBest(cs, name, i) && Resolve(cs, name, false) == Resolved(cs[i].owner, cs[i].typeFullName)
  {
    BestMatchesAreTopScorers(cs, name);
    if |cs| > 0 {
      TopGroupIsInhabited(cs, name);
      forall i: nat | UniqueBest(cs, name, i)
        ensures Resolve(cs, name, false) == Resolved(cs[i].owner, cs[i].typeFullName)
      {
        ResolvesToUniqueBest(cs, name, false, i);
      }
      if !exists i: nat :: UniqueBest(cs, name, i) {
        AmbiguousWithoutUniqueBest(cs, name, false, 0);
      }
    }
  }

  /** The revisions agree whenever some candidate scores above 0. */
  lemma RevisionsAgreeOnMatches(cs: seq<Candidate>, name: string, i0: nat)
    requires i0 < |cs| && Score(cs[i0], name) > 0
    ensures Resolve(cs, name, false) == Resolve(cs, name, true)
  {
    if exists i: nat :: UniqueBest(cs, name, i) {
      var i: nat :| UniqueBest(cs, name, i);
      assert Score(cs[i], name) >= Score(cs[i0], name);
      ResolvesToUniqueBest(cs, name, false, i);
      ResolvesToUniqueBest(cs, name, true, i);
    } else {
      AmbiguousWithoutUniqueBest(cs, name, false, i0);
      AmbiguousWithoutUniqueBest(cs, name, true, i0);
    }
  }

  /** Where they differ, the first revision picks a lone candidate that has
      nothing to do with `Name`, which the current one rejects. */
  lemma FirstRevisionPicksUnrelatedSingleton(c: Candidate, name: string)
    requires Score(c, name) == 0
    ensures Resolve([c], name, false) == Resolved(c.owner, c.typeFullName)
    ensures Resolve([c], name, true) == NotFound
  {
    assert UniqueBest([c], name, 0);
    ResolvesToUniqueBest([c], name, false, 0);
    CurrentResolution([c], name);
  }

  /** An exact `TypeFullName` that no other candidate shares wins in both
      revisions. */
  lemma ExactTypeNameWins(cs: seq<Candidate>, name: string, i: nat)
    requires i < |cs| && cs[i].typeFullName == name
    requires forall j :: 0 <= j < |cs| && j != i ==> cs[j].typeFullName != name
    ensures Resolve(cs, name, true) == Resolved(cs[i].owner, name)
    ensures Resolve(cs, name, false) == Resolved(cs[i].owner, name)
  {
    assert UniqueBest(cs, name, i);
    ResolvesToUniqueBest(cs, name, true, i);
    ResolvesToUniqueBest(cs, name, false, i);
  }

  /** How initialising a `Lazy` ends: the component type is rendered; the
      fallback is shown (the `Error` fragment in the current revision,
      `ChildContent` or "Loading..." in the first); an exception reaches the
      renderer; or it waits forever. */
  datatype Outcome = Rendered(owner: string, typeFullName: string) | Fallback | Thrown | Waiting

  /** `ThrowIfRequired` followed by the error view: an exception when the
      component is required, the fallback otherwise. */
  function Fail(required: bool): (r: Outcome)
    ensures r == Thrown <==> required
    ensures r == Fallback <==> !required
  {
    if required then Thrown else Fallback
  }

  /** The parameters of the current `Lazy`: `Name` (may be null),
      `ModuleName` and `Required`. */
  datatype Parameters = Parameters(name: Option<string>, moduleName: Option<string>, required: bool)

  /** The module and type to load, or how the search ended. */
  function Target(p: Parameters, name: string, all: Reply<seq<ModuleManifest>>): Result<(string, string), Outcome> {
    if p.moduleName.Some? then Ok((p.moduleName.value, name))
    else
      match all
      case Hangs => Err(Waiting)
      case Raised => Err(Fail(p.required))
      case Returned(ms) =>
        match Resolve(Candidates(ms), name, true)
        case Resolved(m, t) => Ok((m, t))
        case _ => Err(Fail(p.required))
  }

  /** Whether `OnInitializedAsync` of the current revision waits forever
      when `Name` is null. `base.SetParametersAsync` (line 84) runs it to its
      end before the null check at line 86, so the `try` block runs with a
      null `Name`: it hangs when the repository does, or when the load of the
      given module, or of the one entry every candidate ties on (see
      `NullNameResolution`), does. */
  predicate HangsWithoutName(p: Parameters, all: Reply<seq<ModuleManifest>>, load: AssemblyName -> LoadReply) {
    if p.moduleName.Some? then load(AssemblyName(p.moduleName.value, None)).LoadHangs?
    else
      match all
      case Hangs => true
      case Raised => false
      case Returned(ms) =>
        match NullNameResolution(Candidates(ms))
        case Some(Resolved(m, _)) => load(AssemblyName(m, None)).LoadHangs?
        case _ => false
  }

  /** `SetParametersAsync` and `OnInitializedAsync` of the current revision
      (lines 82-152): a null `Name` throws once initialisation has run, or
      waits forever with it; a given `ModuleName` skips the manifests;
      otherwise the manifests resolve `Name`; the module is loaded by name
      without a version, and the type looked up in it. Every failure inside
      the `try` goes through `ThrowIfRequired`. */
  function Initialize(p: Parameters, all: Reply<seq<ModuleManifest>>, load: AssemblyName -> LoadReply,
                      hasType: (Assembly, string) -> bool): (r: Outcome)
    ensures p.name.None? ==> r == Waiting || r == Thrown
    ensures p.name.None? && p.moduleName.None? && all.Hangs? ==> r == Waiting
    ensures p.name.Some? && !p.required ==> r != Thrown
    ensures p.required ==> r != Fallback
    ensures r.Rendered? ==> exists a :: load(AssemblyName(r.owner, None)) == Loaded(Some(a)) && hasType(a, r.typeFullName)
    ensures r.Rendered? && p.moduleName.Some? ==> r == Rendered(p.moduleName.value, p.name.value)
    ensures r.Rendered? && p.moduleName.None? ==>
              all.Returned? && Resolve(Candidates(all.value), p.name.value, true) == Resolved(r.owner, r.typeFullName)
  {
    if p.name.None? then (if HangsWithoutName(p, all, load) then Waiting else Thrown)
    else
      match Target(p, p.name.value, all)
      case Err(o) => o
      case Ok((m, t)) =>
        match load(AssemblyName(m, None))
        case LoadHangs => Waiting
        case LoadRaised => Fail(p.required)
        case Loaded(a) => if a.Some? && hasType(a.value, t) then Rendered(m, t) else Fail(p.required)
  }

  /** With `ModuleName` given, the manifests are not consulted. */
  lemma ModuleNameSkipsTheManifests(p: Parameters, all: Reply<seq<ModuleManifest>>, all2: Reply<seq<ModuleManifest>>,
                                    load: AssemblyName -> LoadReply, hasType: (Assembly, string) -> bool)
    requires p.moduleName.Some?
    ensures Initialize(p, all, load, hasType) == Initialize(p, all2, load, hasType)
  {
  }

  /** The module and type the current revision loads: the given module with
      `Name` as the type, or what the manifests resolve `Name` to. */
  predicate Selected(p: Parameters, all: Reply<seq<ModuleManifest>>, m: string, t: string) {
    && p.name.Some?
    && if p.moduleName.Some? then m == p.moduleName.value && t == p.name.value
       else all.Returned? && Resolve(Candidates(all.value), p.name.value, true) == Resolved(m, t)
  }

  /** The current revision renders what it selects once the module loads and
      holds the type; a hanging load waits; a failed load, a null assembly or
      a missing type goes through `ThrowIfRequired` (lines 126-147). */
  lemma InitializeLoadsWhatItFinds(p: Parameters, all: Reply<seq<ModuleManifest>>, load: AssemblyName -> LoadReply,
                                   hasType: (Assembly, string) -> bool, m: string, t: string, a: Assembly)
    ensures Selected(p, all, m, t) && load(AssemblyName(m, None)) == Loaded(Some(a)) && hasType(a, t) ==>
              Initialize(p, all, load, hasType) == Rendered(m, t)
    ensures Selected(p, all, m, t) && load(AssemblyName(m, None)).LoadHangs? ==>
              Initialize(p, all, load, hasType) == Waiting
    ensures Selected(p, all, m, t)
            && (|| load(AssemblyName(m, None)).LoadRaised?
                || load(AssemblyName(m, None)) == Loaded(None)
                || (load(AssemblyName(m, None)) == Loaded(Some(a)) && !hasType(a, t))) ==>
              Initialize(p, all, load, hasType) == Fail(p.required)
  {
  }

  /** Without `ModuleName`, a repository that waits makes the component
      wait; one that throws, or manifests that do not resolve `Name` to a
      single entry, go through `ThrowIfRequired` (lines 113-121, 143-147). */
  lemma InitializeFailsWithoutTarget(p: Parameters, all: Reply<seq<ModuleManifest>>, load: AssemblyName -> LoadReply,
                                     hasType: (Assembly, string) -> bool)
    ensures p.name.Some? && p.moduleName.None? && all.Hangs? ==> Initialize(p, all, load, hasType) == Waiting
    ensures p.name.Some? && p.moduleName.None? && all.Raised? ==> Initialize(p, all, load, hasType) == Fail(p.required)
    ensures p.name.Some? && p.moduleName.None? && all.Returned?
            && !Resolve(Candidates(all.value), p.name.value, true).Resolved? ==>
              Initialize(p, all, load, hasType) == Fail(p.required)
  {
  }

  /** With `Name` null, the current revision never renders: it waits
      exactly when the given module's load waits, or, without `ModuleName`,
      when the repository waits or the single tied entry's load waits; in
      every other case it throws. */
  lemma InitializeWithoutName(p: Parameters, all: Reply<seq<ModuleManifest>>, load: AssemblyName -> LoadReply,
                              hasType: (Assembly, string) -> bool)
    ensures p.name.None? && p.moduleName.Some? ==>
              (Initialize(p, all, load, hasType) == Waiting <==> load(AssemblyName(p.moduleName.value, None)).LoadHangs?)
    ensures p.name.None? && p.moduleName.None? && all.Raised? ==> Initialize(p, all, load, hasType) == Thrown
    ensures p.name.None? && p.moduleName.None? && all.Returned? ==>
              (Initialize(p, all, load, hasType) == Waiting <==>
                 exists m, t :: NullNameResolution(Candidates(all.value)) == Some(Resolved(m, t))
                                && load(AssemblyName(m, None)).LoadHangs?)
  {
    if p.name.None? && p.moduleName.None? && all.Returned? {
      var res := NullNameResolution(Candidates(all.value));
      if res.Some? && res.value.Resolved? {
        assert res == Some(Resolved(res.value.owner, res.value.typeFullName));
      }
    }
  }

  /** The selection of the first revision when `Name` is null (its initial
      value, line 17): no type name equals null, an entry without a `Name`
      scores 2, and any other entry reaches `EndsWith(null)`, which throws
      (`None` here). Every entry then shares score 2, so all of them form
      the best group. */
  function NullNameResolution(cs: seq<Candidate>): (r: Option<Resolution>)
    ensures r.None? <==> exists i :: 0 <= i < |cs| && cs[i].lazyName.Some?
    ensures r == Some(NotFound) <==> |cs| == 0
    ensures r == Some(Ambiguous) <==> |cs| > 1 && forall i :: 0 <= i < |cs| ==> cs[i].lazyName.None?
    ensures r.Some? && r.value.Resolved? ==> cs == [Candidate(r.value.owner, r.value.typeFullName, None)]
  {
    if exists i :: 0 <= i < |cs| && cs[i].lazyName.Some? then None
    else if |cs| == 0 then Some(NotFound)
    else if |cs| > 1 then Some(Ambiguous)
    else Some(Resolved(cs[0].owner, cs[0].typeFullName))
  }

  /** `OnInitializedAsync` of the first revision (lines 32-95): nothing found
      shows the fallback, several best matches always throw, a single one is
      loaded by module name without a version. Nothing is caught. `name` is
      `None` when the `Name` parameter was never set. */
  function InitializeFirst(name: Option<string>, all: Reply<seq<ModuleManifest>>, load: AssemblyName -> LoadReply,
                           hasType: (Assembly, string) -> bool): (r: Outcome)
    ensures name.Some? && all.Returned? && Resolve(Candidates(all.value), name.value, false) == Ambiguous ==> r == Thrown
    ensures name.Some? && all.Returned? && Resolve(Candidates(all.value), name.value, false) == NotFound ==> r == Fallback
    ensures r.Rendered? ==>
              all.Returned? && exists a :: load(AssemblyName(r.owner, None)) == Loaded(Some(a)) && hasType(a, r.typeFullName)
    ensures name.Some? && r.Rendered? ==> Resolve(Candidates(all.value), name.value, false) == Resolved(r.owner, r.typeFullName)
  {
    match all
    case Hangs => Waiting
    case Raised => Thrown
    case Returned(ms) =>
      var res: Option<Resolution> := if name.Some? then Some(Resolve(Candidates(ms), name.value, false)) else NullNameResolution(Candidates(ms));
      match res
      case None => Thrown
      case Some(NotFound) => Fallback
      case Some(Ambiguous) => Thrown
      case Some(Resolved(m, t)) =>
        match load(AssemblyName(m, None))
        case LoadHangs => Waiting
        case LoadRaised => Thrown
        case Loaded(a) => if a.Some? && hasType(a.value, t) then Rendered(m, t) else Fallback
  }

  /** The first revision with `Name` never set: an entry with a lazy name
      throws, and so do several entries; no entry shows the fallback; what
      is rendered is the only entry. */
  lemma InitializeFirstWithoutName(all: Reply<seq<ModuleManifest>>, load: AssemblyName -> LoadReply,
                                   hasType: (Assembly, string) -> bool)
    ensures all.Returned? && (exists i :: 0 <= i < |Candidates(all.value)| && Candidates(all.value)[i].lazyName.Some?) ==>
              InitializeFirst(None, all, load, hasType) == Thrown
    ensures all.Returned? && |Candidates(all.value)| > 1 ==> InitializeFirst(None, all, load, hasType) == Thrown
    ensures all.Returned? && |Candidates(all.value)| == 0 ==> InitializeFirst(None, all, load, hasType) == Fallback
    ensures InitializeFirst(None, all, load, hasType).Rendered? ==>
              var r := InitializeFirst(None, all, load, hasType);
              all.Returned? && Candidates(all.value) == [Candidate(r.owner, r.typeFullName, None)]
  {
    if all.Returned? {
      var cs := Candidates(all.value);
      assert InitializeFirst(None, all, load, hasType).Rendered? ==>
               NullNameResolution(cs).Some? && NullNameResolution(cs).value.Resolved?;
    }
  }

  /** The module and type the first revision loads: the single best match
      for `Name`, or, with `Name` null, the only entry. */
  predicate SelectedFirst(name: Option<string>, all: Reply<seq<ModuleManifest>>, m: string, t: string) {
    && all.Returned?
    && if name.Some? then Resolve(Candidates(all.value), name.value, false) == Resolved(m, t)
       else NullNameResolution(Candidates(all.value)) == Some(Resolved(m, t))
  }

  /** The first revision renders what it selects once the module loads and
      holds the type; a null assembly or a missing type leaves `Type` null, so
      the fallback is drawn (line 93); nothing is caught, so a failed load or
      repository throws (lines 32-95). */
  lemma InitializeFirstLoadsWhatItFinds(name: Option<string>, all: Reply<seq<ModuleManifest>>, load: AssemblyName -> LoadReply,
                                        hasType: (Assembly, string) -> bool, m: string, t: string, a: Assembly)
    ensures SelectedFirst(name, all, m, t) && load(AssemblyName(m, None)) == Loaded(Some(a)) && hasType(a, t) ==>
              InitializeFirst(name, all, load, hasType) == Rendered(m, t)
    ensures SelectedFirst(name, all, m, t) && load(AssemblyName(m, None)).LoadHangs? ==>
              InitializeFirst(name, all, load, hasType) == Waiting
    ensures SelectedFirst(name, all, m, t) && load(AssemblyName(m, None)).LoadRaised? ==>
              InitializeFirst(name, all, load, hasType) == Thrown
    ensures SelectedFirst(name, all, m, t)
            && (load(AssemblyName(m, None)) == Loaded(None) || (load(AssemblyName(m, None)) == Loaded(Some(a)) && !hasType(a, t))) ==>
              InitializeFirst(name, all, load, hasType) == Fallback
    ensures all.Hangs? ==> InitializeFirst(name, all, load, hasType) == Waiting
    ensures all.Raised? ==> InitializeFirst(name, all, load, hasType) == Thrown
  {
  }
}
