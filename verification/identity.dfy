/** Assembly identities and the two comparers the loader keys everything by
    (src/src/AssemblyLoader/Comparers/AssemblyByNameComparer.cs and
    src/AssemblyLoader/Comparers/AssemblyByNameAndVersionComparer.cs).

    Both comparers define `Equals` as equality of their own hash codes, so two
    names are "the same" exactly when their hashes collide. The string hash
    and `HashCode.Combine` are runtime functions; they are parameters here. */
module Identity {
  import opened Wrappers
  import opened Text

  /** `System.Reflection.AssemblyName`: the simple name and the textual form
      of the optional version. */
  datatype AssemblyName = AssemblyName(name: string, version: Option<string>)

  /** A loaded `Assembly`: its name and an identity that tells apart two
      loads of the same name. */
  datatype Assembly = Assembly(identity: AssemblyName, id: nat)

  /** What a call of `IAssemblyLoader.LoadAssemblyByNameAsync` does for a
      component that awaits it: completes with an assembly or `null`, throws,
      or never completes. */
  datatype LoadReply = Loaded(assembly: Option<Assembly>) | LoadRaised | LoadHangs

  /** `string.GetHashCode()` and `HashCode.Combine(int, int)`. */
  datatype Hashes = Hashes(ofString: string -> int, combine: (int, int) -> int)

  /** The version text used for an assembly name without a version. */
  const DefaultVersion: string := "0.0.0.0"

  /** `AssemblyByNameComparer.GetHashCode(AssemblyName)`. */
  function ByNameHash(h: Hashes, n: AssemblyName): int {
    h.ofString(ToLower(n.name))
  }

  /** `AssemblyByNameComparer.Equals(AssemblyName, AssemblyName)`. */
  predicate ByNameEquals(h: Hashes, x: AssemblyName, y: AssemblyName) {
    ByNameHash(h, x) == ByNameHash(h, y)
  }

  /** `AssemblyByNameAndVersionComparer.GetHashCode(AssemblyName)`. */
  function NVHash(h: Hashes, n: AssemblyName): int {
    h.combine(h.ofString(ToLower(n.name)), h.ofString(n.version.GetOr(DefaultVersion)))
  }

  /** `AssemblyByNameAndVersionComparer.Equals(AssemblyName, AssemblyName)`. */
  predicate NVEquals(h: Hashes, x: AssemblyName, y: AssemblyName) {
    NVHash(h, x) == NVHash(h, y)
  }

  /** The `Assembly` overloads of both comparers go through `GetName()`. */
  function ByNameHashOf(h: Hashes, a: Assembly): int {
    ByNameHash(h, a.identity)
  }

  function NVHashOf(h: Hashes, a: Assembly): int {
    NVHash(h, a.identity)
  }

  /** The lookup key of the by-name comparer: the lower-cased name. */
  function NameKey(n: AssemblyName): string {
    ToLower(n.name)
  }

  /** The lookup key of the by-name-and-version comparer: the lower-cased
      name and the version text, with `0.0.0.0` for a missing version. */
  function NVKey(n: AssemblyName): (string, string) {
    (ToLower(n.name), n.version.GetOr(DefaultVersion))
  }

  /** Names that agree on the by-name key are equal under the by-name
      comparer, whatever their versions and letter case. */
  lemma ByNameKeyEquates(h: Hashes, x: AssemblyName, y: AssemblyName)
    requires NameKey(x) == NameKey(y)
    ensures ByNameEquals(h, x, y)
    ensures ByNameHash(h, x) == h.ofString(NameKey(y))
  {
  }

  /** Names that agree on the by-name-and-version key are equal under that
      comparer; a missing version behaves as `0.0.0.0`. */
  lemma NVKeyEquates(h: Hashes, x: AssemblyName, y: AssemblyName)
    requires NVKey(x) == NVKey(y)
    ensures NVEquals(h, x, y)
  {
  }

  lemma MissingVersionIsDefault(h: Hashes, name: string)
    ensures NVEquals(h, AssemblyName(name, None), AssemblyName(name, Some(DefaultVersion)))
  {
  }

  /** Case-insensitive: lower-casing the name changes neither hash. */
  lemma {:induction false} HashesIgnoreCase(h: Hashes, n: AssemblyName)
    ensures ByNameHash(h, AssemblyName(ToLower(n.name), n.version)) == ByNameHash(h, n)
    ensures NVHash(h, AssemblyName(ToLower(n.name), n.version)) == NVHash(h, n)
  {
    ToLowerIdempotent(n.name);
  }

  /** Both comparers are equivalence relations, as `IEqualityComparer`
      requires. */
  lemma ComparersAreEquivalences(h: Hashes, x: AssemblyName, y: AssemblyName, z: AssemblyName)
    ensures ByNameEquals(h, x, x) && NVEquals(h, x, x)
    ensures ByNameEquals(h, x, y) == ByNameEquals(h, y, x)
    ensures NVEquals(h, x, y) == NVEquals(h, y, x)
    ensures ByNameEquals(h, x, y) && ByNameEquals(h, y, z) ==> ByNameEquals(h, x, z)
    ensures NVEquals(h, x, y) && NVEquals(h, y, z) ==> NVEquals(h, x, z)
  {
  }

  /** Equality is hash equality and nothing more: under a string hash that
      collides, two different names are the same assembly to the loader. */
  lemma {:induction false} CollidingNamesAreEqual()
    ensures var h := Hashes((s: string) => |s| % 2, (a: int, b: int) => a);
            ByNameEquals(h, AssemblyName("ab", None), AssemblyName("cd", None))
            && NameKey(AssemblyName("ab", None)) != NameKey(AssemblyName("cd", None))
  {
    var h := Hashes((s: string) => |s| % 2, (a: int, b: int) => a);
    assert ToLower("ab") == "ab";
    assert ToLower("cd") == "cd";
  }
}
