/** Route templates: `RouteTemplate`
    (src/LazyComponents/LazyRoute/Internals/RouteTemplate.cs) and
    `TemplateParser.ParseTemplate`
    (src/LazyComponents/LazyRoute/Internals/TemplateParser.cs).

    A template such as `/users/{id}/edit` is trimmed of its slashes and cut at
    each `/`. A segment is a literal unless it starts with `{`, in which case
    it names a parameter and must be closed by `}`. `TemplateSegment`, which
    reads constraints and the optional marker out of a parameter's text, is
    not part of this model: its constructor is a parameter of the parser. */
module RouteTemplates {
  import opened Wrappers
  import opened Text
  import Sequences

  /** What the model needs of a `TemplateSegment`: its value (the literal, or
      the parameter's text), whether it is a parameter, and whether it is
      optional. */
  datatype TemplateSegment = TemplateSegment(value: string, isParameter: bool, isOptional: bool)

  /** `new TemplateSegment(originalTemplate, text, isParameter)`. */
  type SegmentFactory = (string, string, bool) -> TemplateSegment

  /** A parsed template: its slash-trimmed text and its segments, stored as
      given (RouteTemplate.cs lines 12-15). */
  datatype RouteTemplate = RouteTemplate(templateText: string, segments: seq<TemplateSegment>)

  predicate IsOptional(s: TemplateSegment) {
    s.isOptional
  }

  /** `segments.Count(template => template.IsOptional)` (line 16). */
  function CountOptional(segments: seq<TemplateSegment>): nat {
    if |segments| == 0 then 0
    else (if segments[0].isOptional then 1 else 0) + CountOptional(segments[1..])
  }

  function OptionalSegmentsCount(t: RouteTemplate): nat {
    CountOptional(t.segments)
  }

  /** The count is the number of optional segments: those kept by filtering
      on `IsOptional`. It is therefore at most the number of segments, 0
      exactly when none is optional, and all of them exactly when every one
      is. */
  lemma {:induction false} OptionalCountIsOptionalSegments(segments: seq<TemplateSegment>)
    ensures CountOptional(segments) == |Sequences.Filter(segments, IsOptional)|
    ensures CountOptional(segments) <= |segments|
    ensures CountOptional(segments) == 0 <==> forall k :: 0 <= k < |segments| ==> !segments[k].isOptional
    ensures CountOptional(segments) == |segments| <==> forall k :: 0 <= k < |segments| ==> segments[k].isOptional
  {
    if |segments| > 0 {
      OptionalCountIsOptionalSegments(segments[1..]);
      assert forall k :: 1 <= k < |segments| ==> segments[k] == segments[1..][k - 1];
    }
  }

  /** The characters `ParseTemplate` refuses inside a parameter's braces
      (lines 7-8). */
  const InvalidParameterNameCharacters: set<char> := {'*', '{', '}', '=', '.'}

  /** Why a template is rejected; each case is one `InvalidOperationException`
      of `ParseTemplate`. */
  datatype TemplateError =
    | EmptySegment
    | MissingOpenBrace(segment: string)
    | MissingCloseBrace(segment: string)
    | EmptyParameterName(segment: string)
    | InvalidCharacter(segment: string, c: char)
    | OptionalBeforeRequired
    | RepeatedParameter(value: string)

  /** A well-formed segment, stated without the parser: non-empty; a literal
      does not end with `}`; a parameter is `{`, at least one character none
      of which is invalid, and `}`. */
  predicate WellFormedPart(part: string) {
    && |part| > 0
    && (part[0] != '{' ==> part[|part| - 1] != '}')
    && (part[0] == '{' ==>
          && part[|part| - 1] == '}'
          && |part| >= 3
          && forall k :: 1 <= k < |part| - 1 ==> part[k] !in InvalidParameterNameCharacters)
  }

  /** `{name}`: the text of a parameter segment. */
  function Braced(name: string): string {
    ['{'] + name + ['}']
  }

  /** Lines 25-61 for one segment: its text and whether it is a parameter, or
      the first check it fails. */
  function ParsePart(part: string): (r: Result<(string, bool), TemplateError>)
    ensures r.Ok? <==> WellFormedPart(part)
    ensures r.Ok? && !r.value.1 ==> r.value.0 == part && (|part| > 0 ==> part[0] != '{')
    ensures r.Ok? && r.value.1 ==> part == Braced(r.value.0)
  {
    if |part| == 0 then Err(EmptySegment)
    else if part[0] != '{' then
      if part[|part| - 1] == '}' then Err(MissingOpenBrace(part)) else Ok((part, false))
    else if part[|part| - 1] != '}' then Err(MissingCloseBrace(part))
    else if |part| < 3 then Err(EmptyParameterName(part))
    else
      var k := IndexOfAny(part, InvalidParameterNameCharacters, 1, |part| - 1);
      if k != -1 then Err(InvalidCharacter(part, part[k]))
      else
        var name := part[1..|part| - 1];
        assert part == Braced(name);
        Ok((name, true))
  }

  /** Braces around a name parse back to the name, as a parameter, exactly
      when the name is non-empty and free of the invalid characters. */
  lemma BracedRoundTrip(name: string)
    ensures ParsePart(Braced(name)).Ok? <==>
              |name| > 0 && forall k :: 0 <= k < |name| ==> name[k] !in InvalidParameterNameCharacters
    ensures ParsePart(Braced(name)).Ok? ==> ParsePart(Braced(name)).value == (name, true)
  {
    var part := Braced(name);
    assert forall k :: 1 <= k < |part| - 1 ==> part[k] == name[k - 1];
    if ParsePart(part).Ok? {
      var v := ParsePart(part).value;
      assert part == Braced(v.0);
      assert v.0 == part[1..|part| - 1] == name;
    }
  }

  /** Lines 20-62: every segment in order, or the error of the first one
      that is not well formed. */
  function ParseParts(original: string, parts: seq<string>, make: SegmentFactory): (r: Result<seq<TemplateSegment>, TemplateError>)
    ensures r.Ok? <==> forall k :: 0 <= k < |parts| ==> WellFormedPart(parts[k])
    ensures r.Ok? ==> |r.value| == |parts|
    ensures r.Ok? ==> forall k :: 0 <= k < |parts| ==>
              r.value[k] == make(original, ParsePart(parts[k]).value.0, ParsePart(parts[k]).value.1)
    ensures r.Err? ==> exists k :: 0 <= k < |parts| && ParsePart(parts[k]) == Err(r.error)
                                   && forall j :: 0 <= j < k ==> WellFormedPart(parts[j])
  {
    if |parts| == 0 then Ok([])
    else
      assert forall k :: 1 <= k < |parts| ==> parts[k] == parts[1..][k - 1];
      match ParsePart(parts[0])
      case Err(e) => Err(e)
      case Ok(p) =>
        match ParseParts(original, parts[1..], make)
        case Err(e) =>
          FirstBadPartShifts(parts, e);
          Err(e)
        case Ok(rest) => Ok([make(original, p.0, p.1)] + rest)
  }

  /** The first malformed part after a well-formed head is the first
      malformed part of the whole list. */
  lemma FirstBadPartShifts(parts: seq<string>, e: TemplateError)
    requires |parts| > 0 && ParsePart(parts[0]).Ok?
    requires exists k :: 0 <= k < |parts[1..]| && ParsePart(parts[1..][k]) == Err(e)
                         && forall j :: 0 <= j < k ==> WellFormedPart(parts[1..][j])
    ensures exists k :: 0 <= k < |parts| && ParsePart(parts[k]) == Err(e)
                        && forall j :: 0 <= j < k ==> WellFormedPart(parts[j])
  {
    var k :| 0 <= k < |parts[1..]| && ParsePart(parts[1..][k]) == Err(e)
             && forall j :: 0 <= j < k ==> WellFormedPart(parts[1..][j]);
    assert ParsePart(parts[k + 1]) == Err(e);
    forall j | 0 <= j < k + 1
      ensures WellFormedPart(parts[j])
    {
      if j > 0 { assert parts[j] == parts[1..][j - 1]; }
    }
  }

  /** The pair checked at lines 77-86: a parameter followed, anywhere later,
      by a required segment while it is optional itself, or by a segment of
      the same value up to case. */
  predicate Clash(a: TemplateSegment, b: TemplateSegment) {
    a.isParameter && ((a.isOptional && !b.isOptional) || EqualsIgnoreCase(a.value, b.value))
  }

  /** The first of the two checks that fails decides the message. */
  function ClashError(a: TemplateSegment, b: TemplateSegment): TemplateError {
    if a.isOptional && !b.isOptional then OptionalBeforeRequired else RepeatedParameter(a.value)
  }

  predicate Compatible(segments: seq<TemplateSegment>) {
    forall i, j :: 0 <= i < j < |segments| ==> !Clash(segments[i], segments[j])
  }

  /** Segments `i` and `j` clash, and no pair the nested loops visit earlier
      does. */
  predicate FirstClash(segments: seq<TemplateSegment>, i: int, j: int) {
    && 0 <= i < j < |segments| && Clash(segments[i], segments[j])
    && forall a, b :: 0 <= a < b < |segments| && (a < i || (a == i && b < j)) ==> !Clash(segments[a], segments[b])
  }

  /** Lines 66-88: the first clashing pair in the order the nested loops
      visit them, or none. */
  method FindClash(segments: seq<TemplateSegment>) returns (r: Option<(nat, nat)>)
    ensures r.None? <==> Compatible(segments)
    ensures r.Some? ==> FirstClash(segments, r.value.0, r.value.1)
  {
    var i := 0;
    while i < |segments|
      invariant 0 <= i <= |segments|
      invariant forall a, b :: 0 <= a < i && a < b < |segments| ==> !Clash(segments[a], segments[b])
    {
      if segments[i].isParameter {
        var j := i + 1;
        while j < |segments|
          invariant i + 1 <= j <= |segments|
          invariant forall b :: i < b < j ==> !Clash(segments[i], segments[b])
        {
          if Clash(segments[i], segments[j]) {
            return Some((i, j));
          }
          j := j + 1;
        }
      }
      i := i + 1;
    }
    return None;
  }

  /** A template accepted by the parser, stated without it: nothing but
      slashes, or well-formed segments that do not clash. */
  predicate Valid(template: string, make: SegmentFactory) {
    var trimmed := Trim(template, '/');
    |trimmed| == 0 ||
      (var parsed := ParseParts(template, Split(trimmed, '/'), make);
       parsed.Ok? && Compatible(parsed.value))
  }

  /** `ParseTemplate` (lines 10-91). */
  method ParseTemplate(template: string, make: SegmentFactory) returns (r: Result<RouteTemplate, TemplateError>)
    ensures r.Ok? <==> Valid(template, make)
    ensures |Trim(template, '/')| == 0 ==> r == Ok(RouteTemplate("/", []))
    ensures r.Ok? && |Trim(template, '/')| > 0 ==>
              && r.value.templateText == Trim(template, '/')
              && |r.value.segments| == |Split(Trim(template, '/'), '/')|
              && r.value.segments == ParseParts(template, Split(Trim(template, '/'), '/'), make).value
    ensures r.Err? && ParseParts(template, Split(Trim(template, '/'), '/'), make).Ok? ==>
              var segments := ParseParts(template, Split(Trim(template, '/'), '/'), make).value;
              exists i, j :: FirstClash(segments, i, j) && r.error == ClashError(segments[i], segments[j])
    ensures |Trim(template, '/')| > 0 && ParseParts(template, Split(Trim(template, '/'), '/'), make).Err? ==>
              r == Err(ParseParts(template, Split(Trim(template, '/'), '/'), make).error)
  {
    var trimmed := Trim(template, '/');
    if |trimmed| == 0 {
      return Ok(RouteTemplate("/", []));
    }
    var parts := Split(trimmed, '/');
    var parsed := ParseParts(template, parts, make);
    if parsed.Err? {
      return Err(parsed.error);
    }
    var segments := parsed.value;
    var clash := FindClash(segments);
    if clash.Some? {
      var i, j := clash.value.0, clash.value.1;
      r := Err(ClashError(segments[i], segments[j]));
      assert segments == ParseParts(template, Split(Trim(template, '/'), '/'), make).value;
      assert FirstClash(segments, i, j) && r.error == ClashError(segments[i], segments[j]);
      return;
    }
    return Ok(RouteTemplate(trimmed, segments));
  }

  /** A template of nothing but slashes, the empty one included, is the root
      template `/` (lines 13-18). */
  lemma {:induction false} OnlySlashesTrimToNothing(template: string)
    requires forall k :: 0 <= k < |template| ==> template[k] == '/'
    ensures |TrimStart(template, '/')| == 0
    ensures |Trim(template, '/')| == 0
  {
    if |template| > 0 {
      OnlySlashesTrimToNothing(template[1..]);
    }
  }
}
