/** `RouteContext` (src/LazyComponents/LazyRoute/Internals/RouteContext.cs):
    the path being routed, cut into its non-empty `/`-separated segments,
    each percent-decoded (section 2.1 of RFC 3986). The decoding,
    `Uri.UnescapeDataString`, is a parameter. */
module RouteContexts {
  import opened Wrappers
  import opened Text
  import Sequences

  const Separator: char := '/'

  predicate NotEmpty(s: string) {
    |s| > 0
  }

  function NonEmpty(parts: seq<string>): (r: seq<string>)
    ensures forall k :: 0 <= k < |r| ==> |r[k]| > 0
  {
    var r := Sequences.Filter(parts, NotEmpty);
    assert forall k :: 0 <= k < |r| ==> |r[k]| > 0 by {
      forall k | 0 <= k < |r|
        ensures |r[k]| > 0
      {
        assert r[k] in r;
      }
    }
    r
  }

  /** `path.Trim('/').Split('/', StringSplitOptions.RemoveEmptyEntries)`. */
  function Pieces(path: string): (r: seq<string>)
    ensures forall k :: 0 <= k < |r| ==> |r[k]| > 0 && Separator !in r[k]
  {
    var parts := Split(Trim(path, Separator), Separator);
    var r := NonEmpty(parts);
    assert forall k :: 0 <= k < |r| ==> Separator !in r[k] by {
      forall k | 0 <= k < |r|
        ensures Separator !in r[k]
      {
        assert r[k] in r;
      }
    }
    r
  }

  /** A `RouteContext` once constructed: its segments, and the handler and
      parameters the route table has not set yet. */
  datatype RouteContext<H, P> = RouteContext(segments: seq<string>, handler: Option<H>, parameters: Option<P>)

  /** The constructor (lines 10-20). */
  function NewContext<H, P>(path: string, unescape: string -> string): (r: RouteContext<H, P>)
    ensures |r.segments| == |Pieces(path)|
    ensures forall k :: 0 <= k < |r.segments| ==> r.segments[k] == unescape(Pieces(path)[k])
    ensures r.handler.None? && r.parameters.None?
  {
    var pieces := Pieces(path);
    RouteContext(seq(|pieces|, k requires 0 <= k < |pieces| => unescape(pieces[k])), None, None)
  }

  /** A leading separator only adds an empty piece. */
  lemma SplitAfterSeparator(s: string)
    ensures Split([Separator] + s, Separator) == [""] + Split(s, Separator)
  {
    assert ([Separator] + s)[1..] == s;
  }

  /** A trailing separator only adds an empty piece. */
  lemma {:induction false} SplitBeforeSeparator(s: string)
    ensures Split(s + [Separator], Separator) == Split(s, Separator) + [""]
  {
    if |s| == 0 {
      assert Split([Separator], Separator) == [""] + Split([], Separator);
    } else {
      SplitBeforeSeparator(s[1..]);
      assert (s + [Separator])[1..] == s[1..] + [Separator];
      var rest := Split(s[1..], Separator);
      assert |rest| >= 1;
      assert (rest + [""])[1..] == rest[1..] + [""];
    }
  }

  /** Dropping leading separators does not change the non-empty pieces. */
  lemma {:induction false} TrimStartIsRedundant(s: string)
    ensures NonEmpty(Split(TrimStart(s, Separator), Separator)) == NonEmpty(Split(s, Separator))
  {
    if |s| > 0 && s[0] == Separator {
      TrimStartIsRedundant(s[1..]);
      assert s == [Separator] + s[1..];
      SplitAfterSeparator(s[1..]);
      Sequences.FilterAppend([""], Split(s[1..], Separator), NotEmpty);
    }
  }

  /** Dropping trailing separators does not change the non-empty pieces. */
  lemma {:induction false} TrimEndIsRedundant(s: string)
    ensures NonEmpty(Split(TrimEnd(s, Separator), Separator)) == NonEmpty(Split(s, Separator))
  {
    if |s| > 0 && s[|s| - 1] == Separator {
      var init := s[..|s| - 1];
      TrimEndIsRedundant(init);
      assert s == init + [Separator];
      SplitBeforeSeparator(init);
      Sequences.FilterAppend(Split(init, Separator), [""], NotEmpty);
    }
  }

  /** The `Trim('/')` of line 14 changes nothing: removing the empty entries
      already drops what the leading and trailing separators produce. */
  lemma TrimIsRedundant(path: string)
    ensures Pieces(path) == NonEmpty(Split(path, Separator))
  {
    TrimStartIsRedundant(path);
    TrimEndIsRedundant(TrimStart(path, Separator));
  }

  /** A path made only of separators, the empty path included, has no
      segments. */
  lemma {:induction false} OnlySeparatorsHaveNoSegments(path: string)
    requires forall k :: 0 <= k < |path| ==> path[k] == Separator
    ensures Pieces(path) == []
  {
    TrimIsRedundant(path);
    OnlySeparatorsSplitEmpty(path);
  }

  lemma {:induction false} OnlySeparatorsSplitEmpty(path: string)
    requires forall k :: 0 <= k < |path| ==> path[k] == Separator
    ensures NonEmpty(Split(path, Separator)) == []
  {
    if |path| > 0 {
      OnlySeparatorsSplitEmpty(path[1..]);
      assert path == [Separator] + path[1..];
      SplitAfterSeparator(path[1..]);
      Sequences.FilterAppend([""], Split(path[1..], Separator), NotEmpty);
    }
  }

  /** Segments joined by separators, with any separators around them, cut
      back into the same segments. */
  lemma JoinedSegmentsRoundTrip(segments: seq<string>, before: nat, after: nat)
    requires |segments| >= 1
    requires forall k :: 0 <= k < |segments| ==> |segments[k]| > 0 && Separator !in segments[k]
    ensures Pieces(Repeat(before) + Join(segments, Separator) + Repeat(after)) == segments
  {
    var core := Join(segments, Separator);
    var path := Repeat(before) + core + Repeat(after);
    TrimIsRedundant(path);
    SurroundingSeparators(core, before, after);
    JoinSplit(segments, Separator);
    Sequences.FilterAll(segments, NotEmpty);
  }

  function Repeat(n: nat): (r: string)
    ensures |r| == n && forall k :: 0 <= k < n ==> r[k] == Separator
  {
    if n == 0 then [] else [Separator] + Repeat(n - 1)
  }

  lemma {:induction false} LeadingSeparators(s: string, n: nat)
    ensures NonEmpty(Split(Repeat(n) + s, Separator)) == NonEmpty(Split(s, Separator))
  {
    if n > 0 {
      LeadingSeparators(s, n - 1);
      var rest := Repeat(n - 1) + s;
      assert Repeat(n) + s == [Separator] + rest;
      SplitAfterSeparator(rest);
      Sequences.FilterAppend([""], Split(rest, Separator), NotEmpty);
    } else {
      assert Repeat(0) + s == s;
    }
  }

  lemma {:induction false} TrailingSeparators(s: string, n: nat)
    ensures NonEmpty(Split(s + Repeat(n), Separator)) == NonEmpty(Split(s, Separator))
    decreases n
  {
    if n > 0 {
      TrailingSeparators(s + [Separator], n - 1);
      assert s + Repeat(n) == (s + [Separator]) + Repeat(n - 1) by {
        assert Repeat(n) == [Separator] + Repeat(n - 1);
      }
      SplitBeforeSeparator(s);
      Sequences.FilterAppend(Split(s, Separator), [""], NotEmpty);
    } else {
      assert s + Repeat(0) == s;
    }
  }

  lemma SurroundingSeparators(core: string, before: nat, after: nat)
    ensures NonEmpty(Split(Repeat(before) + core + Repeat(after), Separator)) == NonEmpty(Split(core, Separator))
  {
    LeadingSeparators(core + Repeat(after), before);
    assert Repeat(before) + core + Repeat(after) == Repeat(before) + (core + Repeat(after));
    TrailingSeparators(core, after);
  }
}
