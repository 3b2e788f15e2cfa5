/**
 * A white-listed dependency: a pattern of module names whose licenses are not checked until the
 * entry expires. Instants are whole seconds since the epoch; the clock is the `now` parameter.
 */
module WhiteListedDependencies {
  import opened Regexes
  import opened Calendar
  import opened IsoDateTime

  /** `Instant.DISTANT_FUTURE`, `+100000-01-01T00:00:00Z`. */
  const DistantFuture: int := 3093527980800

  datatype WhiteListedDependency = WhiteListedDependency(moduleNamePattern: Regex, validUntil: int)

  /** `WhiteListedDependency(pattern)`: valid until the distant future. */
  function Forever(pattern: Regex): (r: WhiteListedDependency)
    ensures r.moduleNamePattern == pattern
    ensures forall now :: now <= DistantFuture ==> IsValid(r, now)
  {
    WhiteListedDependency(pattern, DistantFuture)
  }

  /** `isValid(clock)`: the expiry is not before now. */
  predicate IsValid(d: WhiteListedDependency, now: int) {
    d.validUntil >= now
  }

  /** `isExpired(clock)`. */
  predicate IsExpired(d: WhiteListedDependency, now: int) {
    !IsValid(d, now)
  }

  /** An entry is valid up to and including its expiry, and expired after it. */
  lemma ExpiryBoundary(d: WhiteListedDependency)
    ensures IsValid(d, d.validUntil) && IsExpired(d, d.validUntil + 1)
  {
  }

  /** Once expired, an entry stays expired. */
  lemma ExpiredStaysExpired(d: WhiteListedDependency, now: int, later: int)
    requires now <= later && IsExpired(d, now)
    ensures IsExpired(d, later)
  {
  }

  const TextPrefix: string := "WhiteListedDependency(moduleNamePattern="
  const TextMiddle: string := ", validUntil="
  const TextSuffix: string := ")"

  /** `toString()`, with the pattern as the regex prints itself and the expiry as an ISO instant. */
  function ToText(d: WhiteListedDependency): string {
    TextPrefix + d.moduleNamePattern.pattern + TextMiddle + FormatInstant(d.validUntil) + TextSuffix
  }

  /** `a + x + b == a + y + b` only if `x == y`. */
  lemma Cancel(a: string, x: string, y: string, b: string)
    requires a + x + b == a + y + b
    ensures x == y
  {
    assert |x| == |y|;
    assert x == (a + x + b)[|a|..|a| + |x|];
    assert y == (a + y + b)[|a|..|a| + |y|];
  }

  /**
   * The text tells expiries apart: two entries with the same pattern print alike only when they
   * expire at the same instant (within the years the ISO format reads back), so a changed expiry
   * changes the build's recorded inputs.
   */
  lemma ToTextDistinguishesExpiry(d: WhiteListedDependency, e: WhiteListedDependency)
    requires d.moduleNamePattern.pattern == e.moduleNamePattern.pattern
    requires -MaxYear <= DateOfEpochDay(DayOfSecond(d.validUntil)).year <= MaxYear
    requires -MaxYear <= DateOfEpochDay(DayOfSecond(e.validUntil)).year <= MaxYear
    ensures ToText(d) == ToText(e) <==> d.validUntil == e.validUntil
  {
    if ToText(d) == ToText(e) {
      var a := TextPrefix + d.moduleNamePattern.pattern + TextMiddle;
      Cancel(a, FormatInstant(d.validUntil), FormatInstant(e.validUntil), TextSuffix);
      ParseFormatInstant(d.validUntil);
      ParseFormatInstant(e.validUntil);
    }
  }
}
