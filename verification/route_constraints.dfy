/** The type route constraints of the current revision:
    `TypeRouteConstraint<T>.Match`
    (src/src/LazyComponents/LazyRoute/Internals/TypeRouteConstraint.cs) and
    `OptionalTypeRouteConstraint<T>.Match`
    (src/src/LazyComponents/LazyRoute/Internals/OptionalTypeRouteConstraint.cs).

    Both wrap a `TryParse` delegate, modelled as a function returning the
    parsed value or nothing. The converted value is `null` (`None`) whenever
    the constraint fails. */
module RouteConstraints {
  import opened Wrappers

  /** `Match(pathSegment, out convertedValue)`: whether the segment matches,
      and the converted value. */
  datatype Match<T> = Match(matched: bool, converted: Option<T>)

  /** `TypeRouteConstraint<T>.Match` (lines 14-26). */
  function TypeMatch<T>(parse: string -> Option<T>, segment: string): (r: Match<T>)
    ensures r.matched <==> parse(segment).Some?
    ensures r.converted == parse(segment)
  {
    match parse(segment)
    case Some(v) => Match(true, Some(v))
    case None => Match(false, None)
  }

  /** `OptionalTypeRouteConstraint<T>.Match` (lines 14-35): an absent or
      empty segment, an unset optional parameter, matches as `null` without
      the parser being asked. */
  function OptionalTypeMatch<T>(parse: string -> Option<T>, segment: Option<string>): (r: Match<T>)
    ensures segment.None? || segment == Some("") ==> r == Match(true, None)
    ensures segment.Some? && segment.value != "" ==>
              (r.matched <==> parse(segment.value).Some?) && r.converted == parse(segment.value)
  {
    if segment.None? || segment.value == "" then Match(true, None)
    else
      match parse(segment.value)
      case Some(v) => Match(true, Some(v))
      case None => Match(false, None)
  }

  /** On a present, non-empty segment the optional constraint is the plain
      one; it differs only by also accepting the unset segment. */
  lemma OptionalAgreesOnPresentSegments<T>(parse: string -> Option<T>, segment: Option<string>)
    ensures segment.Some? && segment.value != "" ==> OptionalTypeMatch(parse, segment) == TypeMatch(parse, segment.value)
    ensures (segment.None? || segment == Some("")) ==> OptionalTypeMatch(parse, segment).matched
    ensures TypeMatch(parse, "").matched ==> OptionalTypeMatch(parse, Some("")).converted != TypeMatch(parse, "").converted
  {
  }

  /** A match always carries a value and a failure never does, for either
      constraint, except that the optional one matches an unset segment as
      `null`. */
  lemma ConvertedOnlyOnMatch<T>(parse: string -> Option<T>, segment: string, optional: Option<string>)
    ensures TypeMatch(parse, segment).matched <==> TypeMatch(parse, segment).converted.Some?
    ensures OptionalTypeMatch(parse, optional).converted.Some? ==> OptionalTypeMatch(parse, optional).matched
  {
  }
}
