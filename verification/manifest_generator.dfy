/** The build task that writes the lazy-module manifest: `GenerateManifest`
    in its current revision (src/src/ManifestGenerator/GenerateManifest.cs)
    and its earlier one (src/ManifestGenerator/GenerateManifest.cs).

    The build task cleans its inputs, then runs every manifest generator on every
    named module and merges the sections they produce into one manifest
    entry per module. The generators inspect assemblies by reflection and
    are not part of this model: what they produce for a module is a
    parameter, as is the platform's directory separator. */
module ManifestGeneration {
  import opened Wrappers
  import opened Text
  import Sequences
  import opened Manifests

  /** The manifest sections of one module, by key, in insertion order. */
  type Sections = seq<(string, Json)>

  function SectionKey(s: (string, Json)): string {
    s.0
  }

  // ---------------------------------------------------------------- inputs

  /** One assembly path with every `\` and `/` turned into the platform's
      directory separator `sep`. */
  function NormalizePath(p: string, sep: char): (r: string)
    ensures |r| == |p|
    ensures forall i :: 0 <= i < |p| ==> r[i] == (if p[i] == '\\' || p[i] == '/' then sep else p[i])
  {
    Replace(Replace(p, '\\', sep), '/', sep)
  }

  /** A path is normalised when its only separators are `sep`. */
  predicate Normalized(p: string, sep: char) {
    forall i :: 0 <= i < |p| && (p[i] == '\\' || p[i] == '/') ==> p[i] == sep
  }

  /** A normalised path is left as it is; normalising yields one. */
  lemma NormalizePathIdempotent(p: string, sep: char)
    ensures Normalized(NormalizePath(p, sep), sep)
    ensures Normalized(p, sep) ==> NormalizePath(p, sep) == p
    ensures NormalizePath(NormalizePath(p, sep), sep) == NormalizePath(p, sep)
  {
  }

  function NormalizeAll(paths: seq<string>, sep: char): (r: seq<string>)
    ensures |r| == |paths| && forall i :: 0 <= i < |paths| ==> r[i] == NormalizePath(paths[i], sep)
  {
    seq(|paths|, i requires 0 <= i < |paths| => NormalizePath(paths[i], sep))
  }

  /** The assembly paths of `SanitizeInput`: normalised, each once. */
  function SanitizePaths(paths: seq<string>, sep: char): (r: seq<string>)
    ensures forall i, j :: 0 <= i < j < |r| ==> r[i] != r[j]
    ensures forall x :: x in r <==> exists p :: p in paths && NormalizePath(p, sep) == x
    ensures forall i :: 0 <= i < |r| ==> Normalized(r[i], sep)
  {
    var all := NormalizeAll(paths, sep);
    var r := Sequences.Distinct(all);
    assert forall x :: x in r <==> exists p :: p in paths && NormalizePath(p, sep) == x by {
      forall x
        ensures x in all <==> exists p :: p in paths && NormalizePath(p, sep) == x
      {
        if x in all {
          var i :| 0 <= i < |all| && all[i] == x;
          assert paths[i] in paths;
        }
        if exists p :: p in paths && NormalizePath(p, sep) == x {
          var p :| p in paths && NormalizePath(p, sep) == x;
          var i :| 0 <= i < |paths| && paths[i] == p;
          assert all[i] == x;
        }
      }
    }
    assert forall i :: 0 <= i < |r| ==> Normalized(r[i], sep) by {
      forall i | 0 <= i < |r|
        ensures Normalized(r[i], sep)
      {
        assert r[i] in all;
        var k :| 0 <= k < |all| && all[k] == r[i];
        NormalizePathIdempotent(paths[k], sep);
      }
    }
    r
  }

  /** Sanitising the paths a second time changes nothing. */
  lemma SanitizePathsIdempotent(paths: seq<string>, sep: char)
    ensures SanitizePaths(SanitizePaths(paths, sep), sep) == SanitizePaths(paths, sep)
  {
    var r := SanitizePaths(paths, sep);
    assert NormalizeAll(r, sep) == r by {
      forall i | 0 <= i < |r|
        ensures NormalizePath(r[i], sep) == r[i]
      {
        NormalizePathIdempotent(r[i], sep);
      }
    }
    Sequences.DistinctOfDistinct(r);
  }

  /** `string.IsNullOrWhiteSpace` drops a name. */
  function Usable(n: Option<string>): Option<string> {
    if IsNullOrWhiteSpace(n) then None else n
  }

  /** The names that are neither null nor blank, in order. */
  function NonBlank(names: seq<Option<string>>): (r: seq<string>)
    ensures forall x :: x in r <==> Some(x) in names && !IsBlank(x)
  {
    var usable := seq(|names|, i requires 0 <= i < |names| => Usable(names[i]));
    var r := Sequences.NotNull(usable);
    assert forall x :: Some(x) in usable <==> Some(x) in names && !IsBlank(x) by {
      forall x
        ensures Some(x) in usable <==> Some(x) in names && !IsBlank(x)
      {
        if Some(x) in usable {
          var i :| 0 <= i < |usable| && usable[i] == Some(x);
          assert names[i] == Some(x);
        }
        if Some(x) in names && !IsBlank(x) {
          var i :| 0 <= i < |names| && names[i] == Some(x);
          assert usable[i] == Some(x);
        }
      }
    }
    r
  }

  /** The assembly names of `SanitizeInput`: the names that are neither null
      nor blank, each once. */
  function SanitizeNames(names: seq<Option<string>>): (r: seq<string>)
    ensures forall i, j :: 0 <= i < j < |r| ==> r[i] != r[j]
    ensures forall x :: x in r <==> Some(x) in names && !IsBlank(x)
  {
    Sequences.Distinct(NonBlank(names))
  }

  /** The names keep the order of their first occurrence. */
  lemma SanitizeNamesKeepsFirstOccurrences(names: seq<Option<string>>)
    ensures SanitizeNames(names) == Sequences.FirstsOfKeys(NonBlank(names), Sequences.Id, |NonBlank(names)|)
  {
    Sequences.DistinctKeepsFirsts(NonBlank(names));
  }

  /** Sanitising the names a second time changes nothing. */
  lemma SanitizeNamesIdempotent(names: seq<Option<string>>)
    ensures var r := SanitizeNames(names);
            SanitizeNames(seq(|r|, i requires 0 <= i < |r| => Some(r[i]))) == r
  {
    var r := SanitizeNames(names);
    var again := seq(|r|, i requires 0 <= i < |r| => Some(r[i]));
    assert NonBlank(again) == r by {
      NonBlankOfNames(r);
    }
    Sequences.DistinctOfDistinct(r);
  }

  lemma {:induction false} NonBlankOfNames(r: seq<string>)
    requires forall i :: 0 <= i < |r| ==> !IsBlank(r[i])
    ensures NonBlank(seq(|r|, i requires 0 <= i < |r| => Some(r[i]))) == r
  {
    var again := seq(|r|, i requires 0 <= i < |r| => Some(r[i]));
    var usable := seq(|again|, i requires 0 <= i < |again| => Usable(again[i]));
    assert usable == again;
    NotNullOfSomes(r);
  }

  lemma {:induction false} NotNullOfSomes(r: seq<string>)
    ensures Sequences.NotNull(seq(|r|, i requires 0 <= i < |r| => Some(r[i]))) == r
  {
    if |r| > 0 {
      NotNullOfSomes(r[1..]);
      var somes := seq(|r|, i requires 0 <= i < |r| => Some(r[i]));
      assert somes[1..] == seq(|r[1..]|, i requires 0 <= i < |r[1..]| => Some(r[1..][i]));
      assert r == [r[0]] + r[1..];
    }
  }

  // ------------------------------------------------------------ generators

  /** The reference merge: every section every generator produced, in
      generator order, a generator that produced `null` contributing
      nothing. */
  function Merged(outputs: seq<Option<Sections>>): Sections {
    if |outputs| == 0 then []
    else Merged(outputs[..|outputs| - 1]) + outputs[|outputs| - 1].GetOr([])
  }

  lemma {:induction false} MergedAppend(a: seq<Option<Sections>>, b: seq<Option<Sections>>)
    ensures Merged(a + b) == Merged(a) + Merged(b)
    decreases |b|
  {
    if |b| == 0 {
      assert a + b == a;
    } else {
      var init := b[..|b| - 1];
      assert (a + b)[..|a + b| - 1] == a + init;
      MergedAppend(a, init);
    }
  }

  /** One generator more adds its sections at the end. */
  lemma MergedStep(outputs: seq<Option<Sections>>, g: nat)
    requires g < |outputs|
    ensures Merged(outputs[..g + 1]) == Merged(outputs[..g]) + outputs[g].GetOr([])
  {
    assert outputs[..g + 1][..g] == outputs[..g];
  }

  /** A key met again while merging the `k`-th section of generator `g` is
      a key twice in the whole merge. */
  lemma RepeatedKey(outputs: seq<Option<Sections>>, g: nat, k: nat, i: nat)
    requires g < |outputs| && k < |outputs[g].GetOr([])|
    requires i < |Merged(outputs[..g])| + k
    requires SectionKey((Merged(outputs[..g]) + outputs[g].GetOr([])[..k])[i]) == SectionKey(outputs[g].GetOr([])[k])
    ensures !Sequences.DistinctKeys(Merged(outputs), SectionKey)
  {
    var produced := outputs[g].GetOr([]);
    var seen := Merged(outputs[..g]) + produced[..k];
    var rest := produced[k + 1..] + Merged(outputs[g + 1..]);
    MergedAround(outputs, g, k);
    KeyTwice(seen, produced[k], rest, i);
  }

  /** The whole merge, cut at the `k`-th section of generator `g`. */
  lemma MergedAround(outputs: seq<Option<Sections>>, g: nat, k: nat)
    requires g < |outputs| && k < |outputs[g].GetOr([])|
    ensures Merged(outputs)
         == (Merged(outputs[..g]) + outputs[g].GetOr([])[..k]) + [outputs[g].GetOr([])[k]]
            + (outputs[g].GetOr([])[k + 1..] + Merged(outputs[g + 1..]))
  {
    var produced := outputs[g].GetOr([]);
    MergedAt(outputs, g);
    var before, after := Merged(outputs[..g]), Merged(outputs[g + 1..]);
    assert produced == produced[..k] + [produced[k]] + produced[k + 1..];
    assert before + produced + after
        == (before + produced[..k]) + [produced[k]] + (produced[k + 1..] + after);
  }

  /** The whole merge: what comes before generator `g`, its sections, then
      what comes after. */
  lemma MergedAt(outputs: seq<Option<Sections>>, g: nat)
    requires g < |outputs|
    ensures Merged(outputs) == Merged(outputs[..g]) + outputs[g].GetOr([]) + Merged(outputs[g + 1..])
  {
    assert outputs == outputs[..g + 1] + outputs[g + 1..];
    MergedAppend(outputs[..g + 1], outputs[g + 1..]);
    MergedStep(outputs, g);
  }

  /** A section whose key already came earlier repeats a key. */
  lemma KeyTwice(seen: Sections, kv: (string, Json), rest: Sections, i: nat)
    requires i < |seen| && SectionKey(seen[i]) == SectionKey(kv)
    ensures !Sequences.DistinctKeys(seen + [kv] + rest, SectionKey)
  {
    var all := seen + [kv] + rest;
    assert all[i] == seen[i] && all[|seen|] == kv;
  }

  datatype GenerationError = DuplicatedSectionKeys

  /** Whether some section already carries the key (`ContainsKey`). */
  predicate ContainsKey(sections: Sections, key: string) {
    exists i :: 0 <= i < |sections| && sections[i].0 == key
  }

  /** `ExecuteManifestGenerators`, given what each generator produced: the
      merge of the non-null results in generator order, `null` when it is
      empty, and `NotSupportedException` when a key comes twice. */
  method ExecuteManifestGenerators(outputs: seq<Option<Sections>>) returns (r: Result<Option<Sections>, GenerationError>)
    ensures r.Err? <==> !Sequences.DistinctKeys(Merged(outputs), SectionKey)
    ensures r == Ok(None) <==> Sequences.DistinctKeys(Merged(outputs), SectionKey) && |Merged(outputs)| == 0
    ensures r.Ok? && r.value.Some? ==> r.value.value == Merged(outputs) && |r.value.value| > 0
  {
    var merged: Sections := [];
    var g := 0;
    while g < |outputs|
      invariant 0 <= g <= |outputs|
      invariant merged == Merged(outputs[..g])
      invariant Sequences.DistinctKeys(merged, SectionKey)
    {
      var produced := outputs[g].GetOr([]);
      var k := 0;
      while k < |produced|
        invariant 0 <= k <= |produced|
        invariant merged == Merged(outputs[..g]) + produced[..k]
        invariant Sequences.DistinctKeys(merged, SectionKey)
      {
        var kv := produced[k];
        if ContainsKey(merged, kv.0) {
          var i :| 0 <= i < |merged| && merged[i].0 == kv.0;
          RepeatedKey(outputs, g, k, i);
          return Err(DuplicatedSectionKeys);
        }
        assert produced[..k + 1] == produced[..k] + [kv];
        merged := merged + [kv];
        k := k + 1;
      }
      MergedStep(outputs, g);
      assert produced[..k] == produced;
      g := g + 1;
    }
    assert outputs[..g] == outputs;
    if |merged| == 0 {
      return Ok(None);
    }
    return Ok(Some(merged));
  }

  // --------------------------------------------------------------- modules

  /** What running the generators on a module yields: each generator's
      output in order, or nothing when loading the assembly or a generator
      threw. */
  type Run = string -> Option<seq<Option<Sections>>>

  /** A module makes the build fail: its assembly or a generator threw, or two
      generators produced the same section key. */
  predicate Fails(run: Run, name: string) {
    run(name).None? || !Sequences.DistinctKeys(Merged(run(name).value), SectionKey)
  }

  /** The reference manifest: one entry per module, holding every section
      its generators produced. */
  function Expected(names: seq<string>, run: Run): (r: seq<ModuleManifest>)
    requires forall k :: 0 <= k < |names| ==> run(names[k]).Some?
    ensures |r| == |names|
    ensures forall k :: 0 <= k < |names| ==> r[k] == ModuleManifest(names[k], Merged(run(names[k]).value))
  {
    seq(|names|, k requires 0 <= k < |names| => ModuleManifest(names[k], Merged(run(names[k]).value)))
  }

  predicate HasSections(m: ModuleManifest) {
    |m.sections| > 0
  }

  /** The body of the loop over modules, shared by both revisions: load the
      module and run its generators. Nothing when the module makes the build
      fail; otherwise its merged sections, `null` when there are none. */
  method RunModule(run: Run, name: string) returns (r: Option<Option<Sections>>)
    ensures r.None? <==> Fails(run, name)
    ensures r.Some? ==> r.value.GetOr([]) == Merged(run(name).value)
    ensures r.Some? ==> (r.value.Some? <==> |Merged(run(name).value)| > 0)
  {
    var outputs := run(name);
    if outputs.None? {
      return None;
    }
    var sections := ExecuteManifestGenerators(outputs.value);
    if sections.Err? {
      return None;
    }
    return Some(sections.value);
  }

  /** `Execute` of the current revision (lines 41-91), for the sanitised
      names: the manifest written holds every module, one with no section as
      an empty entry; any failure returns `false` and writes nothing. The
      names are distinct, so `manifest.Add` never meets a key twice. */
  method Execute(names: seq<Option<string>>, run: Run) returns (r: Option<seq<ModuleManifest>>)
    ensures r.None? <==> exists k :: 0 <= k < |SanitizeNames(names)| && Fails(run, SanitizeNames(names)[k])
    ensures r.Some? ==> forall k :: 0 <= k < |SanitizeNames(names)| ==> !Fails(run, SanitizeNames(names)[k])
    ensures r.Some? ==> r.value == Expected(SanitizeNames(names), run)
    ensures r.Some? ==> Sequences.DistinctKeys(r.value, NameOf)
  {
    var ns := SanitizeNames(names);
    r := ExecuteModules(ns, run);
    if r.Some? {
      ExpectedKeepsNames(ns, run);
    }
  }

  /** The loop of the current revision over the modules `ns`. */
  method ExecuteModules(ns: seq<string>, run: Run) returns (r: Option<seq<ModuleManifest>>)
    ensures r.None? <==> exists k :: 0 <= k < |ns| && Fails(run, ns[k])
    ensures r.Some? ==> forall k :: 0 <= k < |ns| ==> !Fails(run, ns[k])
    ensures r.Some? ==> r.value == Expected(ns, run)
  {
    var manifest: seq<ModuleManifest> := [];
    var i := 0;
    while i < |ns|
      invariant 0 <= i <= |ns|
      invariant |manifest| == i
      invariant forall k :: 0 <= k < i ==> !Fails(run, ns[k])
      invariant forall k :: 0 <= k < i ==> manifest[k] == ModuleManifest(ns[k], Merged(run(ns[k]).value))
    {
      var sections := RunModule(run, ns[i]);
      if sections.None? {
        return None;
      }
      manifest := manifest + [ModuleManifest(ns[i], sections.value.GetOr([]))];
      i := i + 1;
    }
    return Some(manifest);
  }

  /** Distinct module names give distinct manifest entries. */
  lemma ExpectedKeepsNames(ns: seq<string>, run: Run)
    requires forall i, j :: 0 <= i < j < |ns| ==> ns[i] != ns[j]
    requires forall k :: 0 <= k < |ns| ==> run(ns[k]).Some?
    ensures Sequences.DistinctKeys(Expected(ns, run), NameOf)
  {
  }

  /** `Execute` of the earlier revision (lines 37-80): as the current one,
      except that a module with no section is left out of the manifest. */
  method ExecuteLegacy(names: seq<Option<string>>, run: Run) returns (r: Option<seq<ModuleManifest>>)
    ensures r.None? <==> exists k :: 0 <= k < |SanitizeNames(names)| && Fails(run, SanitizeNames(names)[k])
    ensures r.Some? ==> forall k :: 0 <= k < |SanitizeNames(names)| ==> !Fails(run, SanitizeNames(names)[k])
    ensures r.Some? ==> r.value == Sequences.Filter(Expected(SanitizeNames(names), run), HasSections)
    ensures r.Some? ==> forall k :: 0 <= k < |r.value| ==> |r.value[k].sections| > 0
  {
    r := ExecuteModulesLegacy(SanitizeNames(names), run);
  }

  /** The loop of the earlier revision over the modules `ns`. */
  method ExecuteModulesLegacy(ns: seq<string>, run: Run) returns (r: Option<seq<ModuleManifest>>)
    ensures r.None? <==> exists k :: 0 <= k < |ns| && Fails(run, ns[k])
    ensures r.Some? ==> forall k :: 0 <= k < |ns| ==> !Fails(run, ns[k])
    ensures r.Some? ==> r.value == Sequences.Filter(Expected(ns, run), HasSections)
    ensures r.Some? ==> forall k :: 0 <= k < |r.value| ==> |r.value[k].sections| > 0
  {
    var manifest: seq<ModuleManifest> := [];
    var i := 0;
    while i < |ns|
      invariant 0 <= i <= |ns|
      invariant forall k :: 0 <= k < i ==> !Fails(run, ns[k])
      invariant manifest == LegacyPrefix(ns, run, i)
    {
      var sections := RunModule(run, ns[i]);
      if sections.None? {
        return None;
      }
      if sections.value.Some? {
        manifest := manifest + [ModuleManifest(ns[i], sections.value.value)];
      }
      i := i + 1;
    }
    LegacyPrefixIsFiltered(ns, run, i);
    assert ns[..i] == ns;
    KeptEntriesHaveSections(Expected(ns, run));
    return Some(manifest);
  }

  /** What the earlier revision's loop has written after the first `i`
      modules. */
  function LegacyPrefix(ns: seq<string>, run: Run, i: nat): seq<ModuleManifest>
    requires i <= |ns| && forall k :: 0 <= k < i ==> run(ns[k]).Some?
  {
    if i == 0 then []
    else
      var sections := Merged(run(ns[i - 1]).value);
      LegacyPrefix(ns, run, i - 1) + (if |sections| > 0 then [ModuleManifest(ns[i - 1], sections)] else [])
  }

  /** The loop writes the entries of the reference manifest that have
      sections. */
  lemma {:induction false} LegacyPrefixIsFiltered(ns: seq<string>, run: Run, i: nat)
    requires i <= |ns| && forall k :: 0 <= k < i ==> run(ns[k]).Some?
    ensures LegacyPrefix(ns, run, i) == Sequences.Filter(Expected(ns[..i], run), HasSections)
  {
    if i > 0 {
      LegacyPrefixIsFiltered(ns, run, i - 1);
      LegacyStep(ns, run, i - 1);
      assert ns[..i - 1 + 1] == ns[..i];
    }
  }

  lemma KeptEntriesHaveSections(ms: seq<ModuleManifest>)
    ensures forall k :: 0 <= k < |Sequences.Filter(ms, HasSections)| ==> |Sequences.Filter(ms, HasSections)[k].sections| > 0
  {
    var kept := Sequences.Filter(ms, HasSections);
    forall k | 0 <= k < |kept|
      ensures |kept[k].sections| > 0
    {
      assert kept[k] in kept;
    }
  }

  /** One module more appends its entry to the earlier revision's
      manifest when it has a section, and nothing otherwise. */
  lemma LegacyStep(names: seq<string>, run: Run, i: nat)
    requires i < |names|
    requires forall k :: 0 <= k <= i ==> run(names[k]).Some?
    ensures var entry := ModuleManifest(names[i], Merged(run(names[i]).value));
            Sequences.Filter(Expected(names[..i + 1], run), HasSections)
              == Sequences.Filter(Expected(names[..i], run), HasSections) + (if HasSections(entry) then [entry] else [])
  {
    var entry := ModuleManifest(names[i], Merged(run(names[i]).value));
    assert Expected(names[..i + 1], run) == Expected(names[..i], run) + [entry];
    Sequences.FilterAppend(Expected(names[..i], run), [entry], HasSections);
    assert [entry][1..] == [];
  }

  /** The earlier revision writes the current revision's manifest without
      the entries that have no section, and the entries it keeps are in the
      same order. */
  lemma LegacyOmitsOnlyEmptyModules(names: seq<string>, run: Run, m: ModuleManifest)
    requires forall k :: 0 <= k < |names| ==> run(names[k]).Some?
    ensures m in Sequences.Filter(Expected(names, run), HasSections) <==>
              m in Expected(names, run) && |m.sections| > 0
    ensures |Sequences.Filter(Expected(names, run), HasSections)| <= |names|
  {
  }
}
