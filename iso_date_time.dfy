/**
 * ISO-8601 date and date-time texts as java.time writes and reads them, over instants counted in
 * whole seconds from 1970-01-01T00:00:00Z and fixed zone offsets.
 *
 * A `ZonedTime` stands for a `java.time.ZonedDateTime`: an instant, the offset in force and the
 * zone, which is either that offset itself or a named region whose rules are taken to give
 * that fixed offset (daylight saving is not modelled). Texts are read in two phases, as
 * `DateTimeFormatter.parse` does: the text is split into fields (`LexDateTime`), then the
 * fields are resolved into a date, a time, an offset and a zone.
 */
module IsoDateTime {
  import opened Wrappers
  import opened Calendar
  import Strings

  /** A zone offset in seconds east of UTC; java.time admits at most 18 hours either way. */
  type Offset = o: int | -64800 <= o <= 64800

  const Utc: Offset := 0

  /** Largest year a java.time `LocalDate` holds. */
  const MaxYear: int := 999999999

  /** An ASCII letter. */
  predicate IsAsciiLetter(c: char) {
    'A' <= c <= 'Z' || 'a' <= c <= 'z'
  }

  /** The id of a region zone as `ZoneId.of` admits it: `[A-Za-z][A-Za-z0-9~/._+-]+`. */
  predicate IsRegionId(id: string) {
    && |id| >= 2 && IsAsciiLetter(id[0])
    && forall i :: 1 <= i < |id| ==> IsAsciiLetter(id[i]) || '0' <= id[i] <= '9' || id[i] in "~/._+-"
  }

  type RegionId = id: string | IsRegionId(id) witness "UTC"

  /** The zone of a date-time: its offset itself (a `ZoneOffset`), or a region (a `ZoneRegion`). */
  datatype Zone = OffsetZone | Region(id: RegionId)

  /** `ZoneId.of("UTC")`, the zone of a suppression expiry written without an offset. */
  const DefaultZone: Zone := Region("UTC")

  datatype ZonedTime = ZonedTime(instant: int, offset: Offset, zone: Zone)

  /** `getZone().getId()`: the offset id for an offset zone, the region id otherwise. */
  function ZoneId(t: ZonedTime): string {
    match t.zone
    case OffsetZone => OffsetId(t.offset)
    case Region(id) => id
  }

  /** Seconds from the epoch of the local date-time, as seen at the offset. */
  function LocalSecond(t: ZonedTime): int {
    t.instant + t.offset
  }

  /** `ZonedDateTime.toLocalDate()`. */
  function LocalDateOf(t: ZonedTime): (d: Date)
    ensures ValidDate(d)
  {
    DateOfEpochDay(DayOfSecond(LocalSecond(t)))
  }

  /**
   * `withZoneSameInstant(zone)`: the same instant seen at another offset. The target zone is
   * given by its offset, with the offset as the zone: the suppression writer formats the result
   * with `ISO_DATE`, which prints the offset and never a region id.
   */
  function WithZoneSameInstant(t: ZonedTime, zone: Offset): (r: ZonedTime)
    ensures r.instant == t.instant && r.offset == zone && r.zone == OffsetZone
  {
    ZonedTime(t.instant, zone, OffsetZone)
  }

  /** `date.atStartOfDay(zone)`: midnight at the beginning of a date, at an offset, in a zone. */
  function AtStartOfDay(d: Date, offset: Offset, zone: Zone): (t: ZonedTime)
    requires ValidDate(d)
    ensures LocalDateOf(t) == d && LocalSecond(t) % 86400 == 0
    ensures t.offset == offset && t.zone == zone
  {
    var t := ZonedTime(EpochDay(d) * 86400 - offset, offset, zone);
    assert LocalSecond(t) == EpochDay(d) * 86400 + 0;
    DayOfMidnight(EpochDay(d), 0);
    DateOfEpochDayOfDate(d);
    t
  }

  /** Midnight at the beginning of the local date of `t`, at the offset and in the zone of `t`. */
  function TruncatedToDay(t: ZonedTime): (r: ZonedTime)
    ensures r.offset == t.offset && r.zone == t.zone && LocalDateOf(r) == LocalDateOf(t)
    ensures r.instant <= t.instant < r.instant + 86400
  {
    DayOfSecondBounds(LocalSecond(t));
    AtStartOfDay(LocalDateOf(t), t.offset, t.zone)
  }

  /** `ChronoZonedDateTime.isBefore`: compares instants only. */
  predicate IsBefore(a: ZonedTime, b: ZonedTime) {
    a.instant < b.instant
  }

  /**
   * `a.compareTo(b) <= 0` (`ChronoZonedDateTime.compareTo`): by instant, then by local
   * date-time, which at one instant is the order of offsets, then by zone id as text.
   */
  predicate NotAfter(a: ZonedTime, b: ZonedTime) {
    || a.instant < b.instant
    || (a.instant == b.instant && a.offset < b.offset)
    || (a.instant == b.instant && a.offset == b.offset && Strings.NotAfterText(ZoneId(a), ZoneId(b)))
  }

  /** An offset id is never a region id, so the zone id tells the zone. */
  lemma ZoneIdInjective(a: ZonedTime, b: ZonedTime)
    requires a.offset == b.offset && ZoneId(a) == ZoneId(b)
    ensures a.zone == b.zone
  {
  }

  /** `compareTo` is a total order on zoned date-times. */
  lemma NotAfterIsTotalOrder(a: ZonedTime, b: ZonedTime, c: ZonedTime)
    ensures NotAfter(a, a)
    ensures NotAfter(a, b) && NotAfter(b, a) ==> a == b
    ensures NotAfter(a, b) && NotAfter(b, c) ==> NotAfter(a, c)
    ensures NotAfter(a, b) || NotAfter(b, a)
  {
    Strings.NotAfterTextIsTotalOrder(ZoneId(a), ZoneId(b), ZoneId(c));
    if NotAfter(a, b) && NotAfter(b, a) {
      ZoneIdInjective(a, b);
    }
  }

  /**
   * At one instant and offset the zone id decides: midnight in the region "UTC" (a date read
   * without an offset) comes strictly before midnight at the offset "Z" (a date read with it).
   */
  lemma RegionUtcBeforeOffsetZ(d: Date)
    requires ValidDate(d)
    ensures NotAfter(AtStartOfDay(d, Utc, DefaultZone), AtStartOfDay(d, Utc, OffsetZone))
    ensures !NotAfter(AtStartOfDay(d, Utc, OffsetZone), AtStartOfDay(d, Utc, DefaultZone))
  {
    assert ZoneId(AtStartOfDay(d, Utc, OffsetZone)) == "Z";
    assert ZoneId(AtStartOfDay(d, Utc, DefaultZone)) == "UTC";
  }

  /** Truncating to the day at one offset and zone keeps the order of instants. */
  lemma TruncatedToDayMonotone(a: ZonedTime, b: ZonedTime)
    requires a.offset == b.offset && a.zone == b.zone && a.instant <= b.instant
    ensures NotAfter(TruncatedToDay(a), TruncatedToDay(b))
  {
    Strings.NotAfterTextIsTotalOrder(ZoneId(TruncatedToDay(a)), ZoneId(TruncatedToDay(a)), ZoneId(TruncatedToDay(a)));
    var za := DayOfSecond(LocalSecond(a));
    var zb := DayOfSecond(LocalSecond(b));
    DayOfSecondMonotone(LocalSecond(a), LocalSecond(b));
    assert TruncatedToDay(a).instant == EpochDay(LocalDateOf(a)) * 86400 - a.offset;
    assert TruncatedToDay(b).instant == EpochDay(LocalDateOf(b)) * 86400 - b.offset;
    assert EpochDay(LocalDateOf(a)) == za && EpochDay(LocalDateOf(b)) == zb;
    MultiplyMonotone(za, zb, 86400);
  }

  lemma MultiplyMonotone(x: int, y: int, k: nat)
    requires x <= y
    ensures x * k <= y * k
  {
  }

  // ---------------------------------------------------------------------------------------------
  // Digits

  predicate IsDigit(c: char) {
    '0' <= c <= '9'
  }

  predicate AllDigits(s: string) {
    forall i :: 0 <= i < |s| ==> IsDigit(s[i])
  }

  function DigitChar(n: int): (c: char)
    requires 0 <= n <= 9
    ensures IsDigit(c) && c as int - '0' as int == n
  {
    ('0' as int + n) as char
  }

  /** The value of a run of decimal digits (0 for the empty run). */
  function DigitsValue(s: string): nat
    requires AllDigits(s)
  {
    if s == [] then 0 else DigitsValue(s[..|s| - 1]) * 10 + (s[|s| - 1] as int - '0' as int)
  }

  function Pow10(k: nat): nat {
    if k == 0 then 1 else 10 * Pow10(k - 1)
  }

  lemma {:induction false} Pow10Positive(k: nat)
    ensures Pow10(k) >= 1
  {
    if k > 0 {
      Pow10Positive(k - 1);
    }
  }

  /** `Long.toString(n)` for a non-negative `n`. */
  function Decimal(n: nat): (r: string)
    ensures r != [] && AllDigits(r) && DigitsValue(r) == n
  {
    if n < 10 then [DigitChar(n)]
    else
      var r := Decimal(n / 10) + [DigitChar(n % 10)];
      assert r[..|r| - 1] == Decimal(n / 10);
      r
  }

  lemma {:induction false} DecimalLength(n: nat, k: nat)
    ensures n < Pow10(k) && k > 0 ==> |Decimal(n)| <= k
    ensures Pow10(k) <= n ==> k < |Decimal(n)|
  {
    if k > 0 {
      assert Pow10(k) == 10 * Pow10(k - 1);
      if n >= 10 {
        assert n < Pow10(k) ==> n / 10 < Pow10(k - 1);
        assert Pow10(k) <= n ==> Pow10(k - 1) <= n / 10;
        DecimalLength(n / 10, k - 1);
      } else {
        Pow10Positive(k - 1);
      }
    }
  }

  /** Two digits, zero-padded. */
  function Pad2(n: int): (r: string)
    requires 0 <= n <= 99
    ensures |r| == 2 && AllDigits(r) && DigitsValue(r) == n
  {
    var r := [DigitChar(n / 10), DigitChar(n % 10)];
    assert r[..1] == [r[0]];
    assert DigitsValue(r[..1]) == n / 10;
    r
  }

  /** Four digits, zero-padded. */
  function Pad4(n: int): (r: string)
    requires 0 <= n <= 9999
    ensures |r| == 4 && AllDigits(r) && DigitsValue(r) == n
  {
    var r := Pad2(n / 100) + Pad2(n % 100);
    assert r[..3][..2] == r[..2] == Pad2(n / 100);
    assert r[..1] == r[..2][..1];
    r
  }

  /** Number of consecutive digits of `s` from position `i`, at most `max`. */
  function DigitRun(s: string, i: nat, max: nat): (k: nat)
    requires i <= |s|
    ensures k <= max && i + k <= |s| && AllDigits(s[i..i + k])
    ensures k == max || i + k == |s| || !IsDigit(s[i + k])
    decreases max
  {
    if max == 0 || i == |s| || !IsDigit(s[i]) then 0
    else
      var k := 1 + DigitRun(s, i + 1, max - 1);
      assert s[i..i + k] == [s[i]] + s[i + 1..i + k];
      k
  }

  lemma {:induction false} DigitRunOfDigits(s: string, i: nat, max: nat, k: nat)
    requires i + k <= |s| && k <= max && AllDigits(s[i..i + k])
    requires i + k == |s| || !IsDigit(s[i + k])
    ensures DigitRun(s, i, max) == k
    decreases k
  {
    if k > 0 {
      assert s[i] == s[i..i + k][0];
      assert s[i + 1..i + k] == s[i..i + k][1..];
      DigitRunOfDigits(s, i + 1, max - 1, k - 1);
    }
  }

  /** The value of the two digits at `i`, if there are two digits there. */
  function TwoDigits(s: string, i: nat): (r: Option<nat>)
    ensures r.Some? ==> i + 2 <= |s| && r.value <= 99
  {
    if i + 2 <= |s| && IsDigit(s[i]) && IsDigit(s[i + 1]) then
      Some((s[i] as int - '0' as int) * 10 + (s[i + 1] as int - '0' as int))
    else None
  }

  // ---------------------------------------------------------------------------------------------
  // Formatting

  /**
   * The year field of `ISO_LOCAL_DATE` (`appendValue(YEAR, 4, 10, EXCEEDS_PAD)`): four digits,
   * zero-padded; a leading '+' once the year exceeds four digits, a '-' for years before 0.
   */
  function FormatYear(y: int): string {
    if 0 <= y <= 9999 then Pad4(y)
    else if y > 9999 then "+" + Decimal(y)
    else if -y <= 9999 then "-" + Pad4(-y)
    else "-" + Decimal(-y)
  }

  /** The month and the day of `ISO_LOCAL_DATE`: `-MM-dd`. */
  function MonthDay(month: int, day: int): (r: string)
    requires 0 <= month <= 99 && 0 <= day <= 99
    ensures |r| == 6
  {
    "-" + Pad2(month) + "-" + Pad2(day)
  }

  /** `ISO_LOCAL_DATE`: year-month-day. */
  function FormatDate(d: Date): string
    requires ValidDate(d)
  {
    FormatYear(d.year) + MonthDay(d.month, d.day)
  }

  /** Hours and minutes, `HH:mm`. */
  function HourMinute(h: int, m: int): (r: string)
    requires 0 <= h <= 99 && 0 <= m <= 99
    ensures |r| == 5
  {
    Pad2(h) + ":" + Pad2(m)
  }

  /** `ZoneOffset.getId()` (the `+HH:MM:ss` pattern with "Z" for zero). */
  function OffsetId(o: Offset): string {
    if o == 0 then "Z"
    else
      var a := if o < 0 then -o else o;
      [if o < 0 then '-' else '+'] + HourMinute(a / 3600, a / 60 % 60)
      + (if a % 60 == 0 then "" else ":" + Pad2(a % 60))
  }

  /** `DateTimeFormatter.ISO_DATE.format(t)`: the local date followed by the offset id. */
  function FormatIsoDate(t: ZonedTime): string {
    FormatDate(LocalDateOf(t)) + OffsetId(t.offset)
  }

  /** Hours, minutes and seconds of a second of the day, `HH:mm:ss`. */
  function FormatTimeOfDay(secondOfDay: int): (r: string)
    requires 0 <= secondOfDay < 86400
    ensures |r| == 8
  {
    HourMinute(secondOfDay / 3600, secondOfDay / 60 % 60) + ":" + Pad2(secondOfDay % 60)
  }

  /** A date and a time of day in UTC, `yyyy-MM-ddTHH:mm:ssZ`. */
  function FormatUtc(d: Date, secondOfDay: int): string
    requires ValidDate(d) && 0 <= secondOfDay < 86400
  {
    FormatDate(d) + "T" + FormatTimeOfDay(secondOfDay) + "Z"
  }

  /** An instant in UTC, `yyyy-MM-ddTHH:mm:ssZ`, the way instants print themselves. */
  function FormatInstant(t: int): string {
    DayOfSecondBounds(t);
    FormatUtc(DateOfEpochDay(DayOfSecond(t)), t - DayOfSecond(t) * 86400)
  }

  // ---------------------------------------------------------------------------------------------
  // Parsing, first phase: fields

  /** The time fields of `ISO_LOCAL_TIME`: `HH:mm[:ss[.fraction]]`, absent seconds read as 0. */
  datatype TimeFields = TimeFields(hour: nat, minute: nat, second: nat, nanos: nat)

  /** The fields of `date[Ttime][offset]`, before any range check. */
  datatype DateTimeFields = DateTimeFields(
    year: int, month: nat, day: nat, time: Option<TimeFields>, offset: Option<int>)

  /**
   * The year field in strict parsing: four to ten digits read greedily; without a sign exactly
   * four; '+' only before more than four; '-' not before zero. Returns the year and the position
   * after it.
   */
  function LexYear(s: string): (r: Option<(int, nat)>)
    ensures r.Some? ==> r.value.1 <= |s|
  {
    if |s| > 0 && (s[0] == '+' || s[0] == '-') then
      var k := DigitRun(s, 1, 10);
      SignedYear(s[0], k, DigitsValue(s[1..1 + k]))
    else if DigitRun(s, 0, 10) == 4 then Some((DigitsValue(s[..4]) as int, 4))
    else None
  }

  /** A year of `k` digits with value `v` after a sign: '+' only before more than four digits,
      '-' before at least four and not before zero. */
  function SignedYear(sign: char, k: nat, v: nat): (r: Option<(int, nat)>)
    ensures r.Some? ==> r.value.1 == 1 + k
  {
    if sign == '+' then (if k > 4 then Some((v as int, 1 + k)) else None)
    else if k >= 4 && v != 0 then Some((-(v as int), 1 + k))
    else None
  }

  /** Nanoseconds denoted by the digits of a fraction of a second (at most nine digits). */
  function FractionNanos(digits: string): nat
    requires AllDigits(digits) && |digits| <= 9
  {
    DigitsValue(digits) * Pow10(9 - |digits|)
  }

  /** `['T' ISO_LOCAL_TIME]` from position `j`: the time, if any, and the position after it. */
  function LexTime(s: string, j: nat): (r: Option<(Option<TimeFields>, nat)>)
    requires j <= |s|
    ensures r.Some? ==> j <= r.value.1 <= |s|
  {
    if j < |s| && s[j] == 'T' then
      if j + 6 <= |s| && s[j + 3] == ':' && TwoDigits(s, j + 1).Some? && TwoDigits(s, j + 4).Some? then
        var h, m, k := TwoDigits(s, j + 1).value, TwoDigits(s, j + 4).value, j + 6;
        if k < |s| && s[k] == ':' then
          if TwoDigits(s, k + 1).Some? then
            var f := k + 3;
            if f < |s| && s[f] == '.' then
              var n := DigitRun(s, f + 1, 9);
              Some((Some(TimeFields(h, m, TwoDigits(s, k + 1).value, FractionNanos(s[f + 1..f + 1 + n]))), f + 1 + n))
            else Some((Some(TimeFields(h, m, TwoDigits(s, k + 1).value, 0)), f))
          else None
        else Some((Some(TimeFields(h, m, 0, 0)), k))
      else None
    else Some((None, j))
  }

  /**
   * An optional offset id from position `p`: "Z", or a sign with `HH:MM[:ss]`. Hours above 23
   * and minutes or seconds above 59 are errors.
   */
  function LexOffset(s: string, p: nat): (r: Option<(Option<int>, nat)>)
    requires p <= |s|
    ensures r.Some? ==> p <= r.value.1 <= |s|
  {
    if p < |s| && s[p] == 'Z' then Some((Some(0), p + 1))
    else if p < |s| && (s[p] == '+' || s[p] == '-') then
      if p + 6 <= |s| && s[p + 3] == ':' && TwoDigits(s, p + 1).Some? && TwoDigits(s, p + 4).Some?
        && TwoDigits(s, p + 1).value <= 23 && TwoDigits(s, p + 4).value <= 59
      then
        var h, m := TwoDigits(s, p + 1).value, TwoDigits(s, p + 4).value;
        var sign := if s[p] == '-' then -1 else 1;
        if p + 6 < |s| && s[p + 6] == ':' && TwoDigits(s, p + 7).Some? && TwoDigits(s, p + 7).value <= 59 then
          Some((Some(sign * (h * 3600 + m * 60 + TwoDigits(s, p + 7).value)), p + 9))
        else Some((Some(sign * (h * 3600 + m * 60)), p + 6))
      else None
    else Some((None, p))
  }

  /** `ISO_LOCAL_DATE ['T' ISO_LOCAL_TIME] [offset id]`, the whole text consumed. */
  function LexDateTime(s: string): Option<DateTimeFields> {
    match LexYear(s)
    case None => None
    case Some((year, i)) =>
      if i + 6 <= |s| && s[i] == '-' && s[i + 3] == '-' && TwoDigits(s, i + 1).Some? && TwoDigits(s, i + 4).Some? then
        match LexTime(s, i + 6)
        case None => None
        case Some((time, j)) =>
          match LexOffset(s, j)
          case None => None
          case Some((offset, k)) =>
            if k == |s| then Some(DateTimeFields(year, TwoDigits(s, i + 1).value, TwoDigits(s, i + 4).value, time, offset))
            else None
      else None
  }

  // ---------------------------------------------------------------------------------------------
  // Parsing, second phase: resolving fields

  /** The SMART resolver of the ISO chronology: month 1..12 and day 1..31 are accepted and the
      day is then clamped to the length of the month. */
  function ResolveDateSmart(year: int, month: int, day: int): (r: Option<Date>)
    ensures r.Some? ==> ValidDate(r.value) && r.value.year == year && r.value.month == month
    ensures r.Some? && 1 <= month <= 12 && day <= DaysInMonth(year, month) ==> r.value.day == day
  {
    if -MaxYear <= year <= MaxYear && 1 <= month <= 12 && 1 <= day <= 31 then
      Some(Date(year, month, if day < DaysInMonth(year, month) then day else DaysInMonth(year, month)))
    else None
  }

  /** The STRICT resolver: the day must exist in its month. */
  function ResolveDateStrict(year: int, month: int, day: int): (r: Option<Date>)
    ensures r.Some? <==> -MaxYear <= year <= MaxYear && 1 <= month <= 12 && 1 <= day <= DaysInMonth(year, month)
    ensures r.Some? ==> r.value == Date(year, month, day)
  {
    if -MaxYear <= year <= MaxYear && 1 <= month <= 12 && 1 <= day <= DaysInMonth(year, month) then
      Some(Date(year, month, day))
    else None
  }

  /** A time of day java.time accepts: 00:00:00 to 23:59:59, or 24:00 for the end of the day. */
  predicate ValidTime(t: TimeFields) {
    (t.hour <= 23 && t.minute <= 59 && t.second <= 59 && t.nanos <= 999999999)
    || (t.hour == 24 && t.minute == 0 && t.second == 0 && t.nanos == 0)
  }

  function SecondOfDay(t: TimeFields): nat {
    t.hour * 3600 + t.minute * 60 + t.second
  }

  /**
   * The suppression-file parser of the plugin as written. Its defaults for hour, minute,
   * second-of-day, second and millisecond are installed BEFORE the date and the time are read,
   * so a time that is read must agree with them: the hour, minute and second must be 0; the
   * millisecond default then allows only a fraction below one millisecond, and when an offset
   * is read the nano-of-day default allows no fraction at all. Every accepted text therefore
   * denotes midnight.
   */
  predicate DefaultsAgree(time: Option<TimeFields>, hasOffset: bool) {
    time.None?
    || (time.value.hour == 0 && time.value.minute == 0 && time.value.second == 0
        && (if hasOffset then time.value.nanos == 0 else time.value.nanos < 1000000))
  }

  /** `date.atTime(time).atZone(zone)` for a time of day given in seconds. */
  function AtSecondOfDay(d: Date, secondOfDay: int, offset: Offset, zone: Zone): (t: ZonedTime)
    requires ValidDate(d)
    ensures t.offset == offset && t.zone == zone && LocalSecond(t) - secondOfDay == EpochDay(d) * 86400
  {
    ZonedTime(EpochDay(d) * 86400 + secondOfDay - offset, offset, zone)
  }

  /**
   * The zone the plugin's parser gives a text: `temporal.query(TemporalQueries.zone())`, which
   * is the offset read, or else `DEFAULT_ZONE_ID`.
   */
  function ParsedZone(offset: Option<int>): Zone {
    if offset.Some? then OffsetZone else DefaultZone
  }

  function ResolveAsWritten(f: DateTimeFields): (r: Option<ZonedTime>)
    ensures r.Some? ==> LocalSecond(r.value) % 86400 == 0
  {
    var zone := f.offset.GetOr(0);
    match ResolveDateSmart(f.year, f.month, f.day)
    case None => None
    case Some(date) =>
      if -64800 <= zone <= 64800 && DefaultsAgree(f.time, f.offset.Some?) then
        var t := AtSecondOfDay(date, 0, zone, ParsedZone(f.offset));
        MultipleOfDay(EpochDay(date));
        Some(t)
      else None
  }

  lemma MultipleOfDay(e: int)
    ensures (e * 86400) % 86400 == 0
  {
  }

  function ParseToZonedDateTimeAsWritten(s: string): (r: Option<ZonedTime>)
    ensures r.Some? ==> LocalSecond(r.value) % 86400 == 0
  {
    match LexDateTime(s)
    case None => None
    case Some(f) => ResolveAsWritten(f)
  }

  function Resolve(f: DateTimeFields): Option<ZonedTime> {
    var zone := f.offset.GetOr(0);
    var time := f.time.GetOr(TimeFields(0, 0, 0, 0));
    match ResolveDateSmart(f.year, f.month, f.day)
    case None => None
    case Some(date) =>
      if -64800 <= zone <= 64800 && ValidTime(time) then Some(AtSecondOfDay(date, SecondOfDay(time), zone, ParsedZone(f.offset)))
      else None
  }

  /**
   * The parser as evidently intended: the date, then the time of day if one is given (midnight
   * otherwise), at the offset if one is given (in the zone "UTC" otherwise). Fractions of a second are
   * dropped, since instants here are whole seconds.
   */
  function ParseToZonedDateTime(s: string): Option<ZonedTime> {
    match LexDateTime(s)
    case None => None
    case Some(f) => Resolve(f)
  }

  /** The letters 't' and 'z' read as 'T' and 'Z'; every other character as it is. */
  function FoldLetter(c: char): char {
    if c == 't' then 'T' else if c == 'z' then 'Z' else c
  }

  function FoldLetters(s: string): (r: string)
    ensures |r| == |s| && forall i :: 0 <= i < |s| ==> r[i] == FoldLetter(s[i])
  {
    seq(|s|, i requires 0 <= i < |s| => FoldLetter(s[i]))
  }

  /**
   * `Instant.parse`: an ISO-8601 date-time with a mandatory time and offset, strictly resolved.
   * The parse ignores case, and the only letters of the format are 'T' and 'Z', so the text is
   * read with those two folded to upper case.
   */
  function ParseInstant(s: string): Option<int> {
    match LexDateTime(FoldLetters(s))
    case None => None
    case Some(f) => ResolveInstant(f)
  }

  function ResolveInstant(f: DateTimeFields): Option<int> {
    if f.time.None? || f.offset.None? then None
    else
      match ResolveDateStrict(f.year, f.month, f.day)
      case None => None
      case Some(date) =>
        var time := f.time.value;
        if -64800 <= f.offset.value <= 64800 && time.hour <= 23 && time.minute <= 59 && time.second <= 59 then
          Some(EpochDay(date) * 86400 + SecondOfDay(time) - f.offset.value)
        else None
  }

  // ---------------------------------------------------------------------------------------------
  // Properties: the parser as written and the parser as intended

  lemma ResolveValidDate(d: Date)
    requires ValidDate(d) && -MaxYear <= d.year <= MaxYear
    ensures ResolveDateSmart(d.year, d.month, d.day) == Some(d)
    ensures ResolveDateStrict(d.year, d.month, d.day) == Some(d)
  {
  }

  /** Whatever fields the parser as written resolves, the intended resolver resolves alike. */
  lemma ResolveAgrees(f: DateTimeFields)
    requires ResolveAsWritten(f).Some?
    ensures Resolve(f) == ResolveAsWritten(f)
  {
  }

  /** Wherever the parser as written accepts a text, the intended parser reads the same date-time. */
  lemma AsWrittenAgreesWithIntended(s: string)
    requires ParseToZonedDateTimeAsWritten(s).Some?
    ensures ParseToZonedDateTime(s) == ParseToZonedDateTimeAsWritten(s)
  {
    ResolveAgrees(LexDateTime(s).value);
  }

  /** A date without a time resolves to midnight, at the offset read or else UTC, with either resolver. */
  lemma ResolveMidnight(d: Date, offset: Option<int>)
    requires ValidDate(d) && -MaxYear <= d.year <= MaxYear
    requires offset.Some? ==> -64800 <= offset.value <= 64800
    ensures var f, zone := DateTimeFields(d.year, d.month, d.day, None, offset), offset.GetOr(0);
      && ResolveAsWritten(f) == Some(AtSecondOfDay(d, 0, zone, ParsedZone(offset)))
      && Resolve(f) == Some(AtSecondOfDay(d, 0, zone, ParsedZone(offset)))
  {
    ResolveValidDate(d);
  }

  /** A time of day other than midnight: the resolver as written fails, the intended one reads it. */
  lemma ResolveTimeOfDay(d: Date, h: int, m: int)
    requires ValidDate(d) && -MaxYear <= d.year <= MaxYear && 0 <= h <= 23 && 0 <= m <= 59
    requires h != 0 || m != 0
    ensures var f := DateTimeFields(d.year, d.month, d.day, Some(TimeFields(h, m, 0, 0)), None);
      ResolveAsWritten(f) == None && Resolve(f) == Some(AtSecondOfDay(d, h * 3600 + m * 60, Utc, DefaultZone))
  {
    ResolveValidDate(d);
  }

  /** The text of a date followed by a time of day in hours and minutes, `yyyy-MM-ddTHH:mm`. */
  function DateHourMinute(d: Date, h: int, m: int): string
    requires ValidDate(d) && 0 <= h <= 23 && 0 <= m <= 59
  {
    FormatDate(d) + "T" + HourMinute(h, m)
  }

  /**
   * The parser as written rejects every date-time whose time of day is not midnight, where the
   * intended parser reads that time.
   */
  lemma AsWrittenRejectsTimeOfDay(d: Date, h: int, m: int)
    requires ValidDate(d) && -MaxYear <= d.year <= MaxYear && 0 <= h <= 23 && 0 <= m <= 59
    requires h != 0 || m != 0
    ensures ParseToZonedDateTimeAsWritten(DateHourMinute(d, h, m)) == None
    ensures ParseToZonedDateTime(DateHourMinute(d, h, m)) == Some(AtSecondOfDay(d, h * 3600 + m * 60, Utc, DefaultZone))
  {
    LexDateHourMinute(d, h, m);
    ResolveTimeOfDay(d, h, m);
  }

  /** A concrete counterexample: "2024-05-01T10:30". */
  lemma AsWrittenRejectsHalfPastTen()
    ensures ParseToZonedDateTimeAsWritten("2024-05-01T10:30") == None
    ensures ParseToZonedDateTime("2024-05-01T10:30") == Some(AtSecondOfDay(Date(2024, 5, 1), 37800, Utc, DefaultZone))
  {
    HalfPastTenText();
    AsWrittenRejectsTimeOfDay(Date(2024, 5, 1), 10, 30);
  }

  lemma HalfPastTenText()
    ensures DateHourMinute(Date(2024, 5, 1), 10, 30) == "2024-05-01T10:30"
  {
    YearText();
    MonthDayText();
    HourMinuteText();
    assert "2024" + "-05-01" + "T" + "10:30" == "2024-05-01T10:30";
  }

  lemma YearText()
    ensures FormatYear(2024) == "2024"
  {
    assert Pad2(20) == "20" && Pad2(24) == "24";
  }

  lemma MonthDayText()
    ensures MonthDay(5, 1) == "-05-01"
  {
    assert Pad2(5) == "05" && Pad2(1) == "01";
  }

  lemma HourMinuteText()
    ensures HourMinute(10, 30) == "10:30"
  {
    assert Pad2(10) == "10" && Pad2(30) == "30";
  }

  // ---------------------------------------------------------------------------------------------
  // Properties: reading back what was written

  /** The text `t` occurs in `s` at position `i`. */
  ghost predicate At(s: string, i: nat, t: string) {
    i + |t| <= |s| && s[i..i + |t|] == t
  }

  lemma AtLeft(a: string, b: string)
    ensures At(a + b, 0, a)
  {
    assert (a + b)[0..|a|] == a;
  }

  lemma AtRight(a: string, b: string)
    ensures At(a + b, |a|, b)
  {
    assert (a + b)[|a|..|a| + |b|] == b;
  }

  lemma AtWhole(s: string)
    ensures At(s, 0, s)
  {
    assert s[0..|s|] == s;
  }

  lemma AtCompose(s: string, i: nat, t: string, j: nat, u: string)
    requires At(s, i, t) && At(t, j, u)
    ensures At(s, i + j, u)
  {
    forall k | 0 <= k < |u| ensures s[i + j + k] == u[k] {
      assert s[i + j + k] == s[i..i + |t|][j + k];
      assert t[j + k] == t[j..j + |u|][k];
    }
    assert s[i + j..i + j + |u|] == u;
  }

  lemma AtChar(s: string, i: nat, t: string, k: nat)
    requires At(s, i, t) && k < |t|
    ensures s[i + k] == t[k]
  {
    assert s[i + k] == s[i..i + |t|][k];
  }

  lemma AtPad2(s: string, i: nat, n: int)
    requires 0 <= n <= 99 && At(s, i, Pad2(n))
    ensures TwoDigits(s, i) == Some(n as nat)
  {
    AtChar(s, i, Pad2(n), 0);
    AtChar(s, i, Pad2(n), 1);
    assert Pad2(n)[0] == DigitChar(n / 10) && Pad2(n)[1] == DigitChar(n % 10);
  }

  lemma MonthDayAt(s: string, i: nat, month: int, day: int)
    requires 0 <= month <= 99 && 0 <= day <= 99 && At(s, i, MonthDay(month, day))
    ensures s[i] == '-' && s[i + 3] == '-'
    ensures TwoDigits(s, i + 1) == Some(month as nat) && TwoDigits(s, i + 4) == Some(day as nat)
  {
    var t := MonthDay(month, day);
    assert t[0] == '-' && t[3] == '-' && t[1..3] == Pad2(month) && t[4..6] == Pad2(day);
    AtChar(s, i, t, 0);
    AtChar(s, i, t, 3);
    AtCompose(s, i, t, 1, Pad2(month));
    AtCompose(s, i, t, 4, Pad2(day));
    AtPad2(s, i + 1, month);
    AtPad2(s, i + 4, day);
  }

  lemma HourMinuteAt(s: string, i: nat, h: int, m: int)
    requires 0 <= h <= 99 && 0 <= m <= 99 && At(s, i, HourMinute(h, m))
    ensures s[i + 2] == ':'
    ensures TwoDigits(s, i) == Some(h as nat) && TwoDigits(s, i + 3) == Some(m as nat)
  {
    var t := HourMinute(h, m);
    assert t[2] == ':' && t[0..2] == Pad2(h) && t[3..5] == Pad2(m);
    AtChar(s, i, t, 2);
    AtCompose(s, i, t, 0, Pad2(h));
    AtCompose(s, i, t, 3, Pad2(m));
    AtPad2(s, i, h);
    AtPad2(s, i + 3, m);
  }

  lemma LexYearUnsignedAt(s: string, digits: string)
    requires |digits| == 4 && AllDigits(digits) && At(s, 0, digits) && 4 < |s| && s[4] == '-'
    ensures LexYear(s) == Some((DigitsValue(digits) as int, 4))
  {
    assert s[..4] == s[0..4] == digits;
    AtChar(s, 0, digits, 0);
    DigitRunOfDigits(s, 0, 10, 4);
  }

  /** The sign and the digits of a signed year, when followed by the '-' that ends the year. */
  lemma SignedYearAt(s: string, sign: char, digits: string)
    requires 4 <= |digits| <= 10 && AllDigits(digits)
    requires At(s, 0, [sign] + digits) && 1 + |digits| < |s| && s[1 + |digits|] == '-'
    ensures s[0] == sign && DigitRun(s, 1, 10) == |digits| && s[1..1 + |digits|] == digits
  {
    AtRight([sign], digits);
    AtCompose(s, 0, [sign] + digits, 1, digits);
    AtChar(s, 0, [sign] + digits, 0);
    DigitRunOfDigits(s, 1, 10, |digits|);
  }

  lemma LexYearSignedAt(s: string, sign: char, digits: string)
    requires (sign == '+' || sign == '-') && 4 <= |digits| <= 10 && AllDigits(digits)
    requires At(s, 0, [sign] + digits) && 1 + |digits| < |s| && s[1 + |digits|] == '-'
    ensures LexYear(s) == SignedYear(sign, |digits|, DigitsValue(digits))
  {
    SignedYearAt(s, sign, digits);
    LexYearSigned(s, sign, digits);
  }

  lemma LexYearSigned(s: string, sign: char, digits: string)
    requires (sign == '+' || sign == '-') && AllDigits(digits)
    requires |s| > 0 && s[0] == sign && 1 + |digits| <= |s| && DigitRun(s, 1, 10) == |digits|
    requires s[1..1 + |digits|] == digits
    ensures LexYear(s) == SignedYear(sign, |digits|, DigitsValue(digits))
  {
  }

  lemma PositiveYear(k: nat, v: nat)
    requires 4 < k
    ensures SignedYear('+', k, v) == Some((v as int, 1 + k))
  {
  }

  lemma NegativeYear(k: nat, v: nat)
    requires 4 <= k && v != 0
    ensures SignedYear('-', k, v) == Some((-(v as int), 1 + k))
  {
  }

  /** A year beyond four digits takes five to nine digits. */
  lemma DecimalYearLength(n: nat)
    requires 9999 < n <= MaxYear
    ensures 4 < |Decimal(n)| <= 9
  {
    assert Pow10(4) == 10000;
    assert Pow10(9) == 1000000000;
    DecimalLength(n, 4);
    DecimalLength(n, 9);
  }

  /** The year field of a text that starts with a year written by `ISO_LOCAL_DATE`. */
  lemma LexYearAt(s: string, y: int)
    requires -MaxYear <= y <= MaxYear
    requires At(s, 0, FormatYear(y)) && |FormatYear(y)| < |s| && s[|FormatYear(y)|] == '-'
    ensures LexYear(s) == Some((y, |FormatYear(y)|))
  {
    if 0 <= y <= 9999 {
      LexYearUnsignedAt(s, Pad4(y));
    } else if y > 9999 {
      DecimalYearLength(y);
      LexYearSignedAt(s, '+', Decimal(y));
      PositiveYear(|Decimal(y)|, y);
    } else if -y <= 9999 {
      LexYearSignedAt(s, '-', Pad4(-y));
      NegativeYear(4, -y);
    } else {
      DecimalYearLength(-y);
      LexYearSignedAt(s, '-', Decimal(-y));
      NegativeYear(|Decimal(-y)|, -y);
    }
  }

  lemma OffsetSplit(a: int)
    requires 0 <= a <= 64800
    ensures a / 3600 <= 18 && a / 60 % 60 <= 59 && a % 60 <= 59
    ensures a == a / 3600 * 3600 + a / 60 % 60 * 60 + a % 60
  {
  }

  /** The sign, hours, minutes and seconds an offset id shows make up the offset. */
  lemma OffsetValue(o: Offset)
    ensures var a := if o < 0 then -o else o;
      && (if o < 0 then -1 else 1) * (a / 3600 * 3600 + a / 60 % 60 * 60 + a % 60) == o
      && (a % 60 == 0 ==> (if o < 0 then -1 else 1) * (a / 3600 * 3600 + a / 60 % 60 * 60) == o)
  {
    var a := if o < 0 then -o else o;
    OffsetSplit(a);
    if o < 0 {
      assert -1 * (a / 3600 * 3600 + a / 60 % 60 * 60 + a % 60) == -a;
    }
  }

  /** The sign, the hours and the minutes of a non-zero offset id. */
  lemma OffsetIdHead(s: string, p: nat, o: Offset)
    requires o != 0 && At(s, p, OffsetId(o))
    ensures var a := if o < 0 then -o else o;
      && s[p] == (if o < 0 then '-' else '+') && s[p + 3] == ':'
      && TwoDigits(s, p + 1) == Some((a / 3600) as nat) && TwoDigits(s, p + 4) == Some((a / 60 % 60) as nat)
  {
    var a := if o < 0 then -o else o;
    OffsetSplit(a);
    var head := [if o < 0 then '-' else '+'] + HourMinute(a / 3600, a / 60 % 60);
    var tail := if a % 60 == 0 then "" else ":" + Pad2(a % 60);
    assert OffsetId(o) == head + tail;
    AtLeft(head, tail);
    AtCompose(s, p, OffsetId(o), 0, head);
    AtChar(s, p, head, 0);
    AtRight([if o < 0 then '-' else '+'], HourMinute(a / 3600, a / 60 % 60));
    AtCompose(s, p, head, 1, HourMinute(a / 3600, a / 60 % 60));
    HourMinuteAt(s, p + 1, a / 3600, a / 60 % 60);
  }

  lemma LexWholeMinuteOffsetAt(s: string, p: nat, o: Offset)
    requires o != 0 && (if o < 0 then -o else o) % 60 == 0
    requires At(s, p, OffsetId(o)) && p + |OffsetId(o)| == |s|
    ensures LexOffset(s, p) == Some((Some(o as int), |s|))
  {
    OffsetSplit(if o < 0 then -o else o);
    OffsetValue(o);
    OffsetIdHead(s, p, o);
  }

  lemma LexOffsetWithSecondsAt(s: string, p: nat, o: Offset)
    requires (if o < 0 then -o else o) % 60 != 0
    requires At(s, p, OffsetId(o)) && p + |OffsetId(o)| == |s|
    ensures LexOffset(s, p) == Some((Some(o as int), |s|))
  {
    var a := if o < 0 then -o else o;
    OffsetSplit(a);
    OffsetValue(o);
    OffsetIdHead(s, p, o);
    OffsetIdSeconds(s, p, o);
    LexOffsetFields(s, p, a / 3600, a / 60 % 60, a % 60);
  }

  /** The seconds of an offset id that shows them. */
  lemma OffsetIdSeconds(s: string, p: nat, o: Offset)
    requires (if o < 0 then -o else o) % 60 != 0 && At(s, p, OffsetId(o))
    ensures var a := if o < 0 then -o else o;
      && |OffsetId(o)| == 9 && s[p + 6] == ':' && TwoDigits(s, p + 7) == Some((a % 60) as nat)
  {
    var a := if o < 0 then -o else o;
    OffsetSplit(a);
    var head := [if o < 0 then '-' else '+'] + HourMinute(a / 3600, a / 60 % 60);
    assert OffsetId(o) == head + (":" + Pad2(a % 60));
    SecondsTailAt(s, p, head, a % 60);
  }

  lemma SecondsTailAt(s: string, p: nat, head: string, sec: int)
    requires |head| == 6 && 0 <= sec < 60 && At(s, p, head + (":" + Pad2(sec)))
    ensures s[p + 6] == ':' && TwoDigits(s, p + 7) == Some(sec as nat)
  {
    var tail := ":" + Pad2(sec);
    AtRight(head, tail);
    AtCompose(s, p, head + tail, 6, tail);
    AtChar(s, p + 6, tail, 0);
    AtRight(":", Pad2(sec));
    AtCompose(s, p + 6, tail, 1, Pad2(sec));
    AtPad2(s, p + 7, sec);
  }


  lemma LexOffsetFields(s: string, p: nat, h: nat, m: nat, sec: nat)
    requires p + 9 == |s| && (s[p] == '+' || s[p] == '-') && s[p + 3] == ':' && s[p + 6] == ':'
    requires h <= 23 && m <= 59 && sec <= 59
    requires TwoDigits(s, p + 1) == Some(h) && TwoDigits(s, p + 4) == Some(m) && TwoDigits(s, p + 7) == Some(sec)
    ensures LexOffset(s, p) == Some((Some((if s[p] == '-' then -1 else 1) * (h * 3600 + m * 60 + sec)), p + 9))
  {
  }

  /** The offset field of a text that ends with an offset id. */
  lemma LexOffsetAt(s: string, p: nat, o: Offset)
    requires At(s, p, OffsetId(o)) && p + |OffsetId(o)| == |s|
    ensures LexOffset(s, p) == Some((Some(o as int), |s|))
  {
    if o == 0 {
      AtChar(s, p, OffsetId(o), 0);
    } else if (if o < 0 then -o else o) % 60 == 0 {
      LexWholeMinuteOffsetAt(s, p, o);
    } else {
      LexOffsetWithSecondsAt(s, p, o);
    }
  }

  lemma OffsetIdStart(o: Offset)
    ensures OffsetId(o) != [] && OffsetId(o)[0] != 'T'
  {
  }

  lemma LexTimeHourMinuteAt(s: string, p: nat, h: int, m: int)
    requires 0 <= h <= 23 && 0 <= m <= 59
    requires p < |s| && s[p] == 'T' && At(s, p + 1, HourMinute(h, m)) && p + 6 == |s|
    ensures LexTime(s, p) == Some((Some(TimeFields(h, m, 0, 0)), p + 6))
  {
    HourMinuteAt(s, p + 1, h, m);
  }

  lemma TimeOfDaySplit(sod: int)
    requires 0 <= sod < 86400
    ensures sod / 3600 <= 23 && sod / 60 % 60 <= 59 && sod % 60 <= 59
    ensures SecondOfDay(TimeFields(sod / 3600, sod / 60 % 60, sod % 60, 0)) == sod
  {
  }

  lemma LexTimeOfDayAt(s: string, p: nat, sod: int)
    requires 0 <= sod < 86400
    requires p < |s| && s[p] == 'T' && At(s, p + 1, FormatTimeOfDay(sod)) && p + 9 < |s| && s[p + 9] == 'Z'
    ensures LexTime(s, p) == Some((Some(TimeFields(sod / 3600, sod / 60 % 60, sod % 60, 0)), p + 9))
  {
    TimeOfDaySplit(sod);
    var hm := HourMinute(sod / 3600, sod / 60 % 60);
    var t := FormatTimeOfDay(sod);
    AtLeft(hm + ":", Pad2(sod % 60));
    AtLeft(hm, ":");
    AtCompose(t, 0, hm + ":", 0, hm);
    AtCompose(s, p + 1, t, 0, hm);
    HourMinuteAt(s, p + 1, sod / 3600, sod / 60 % 60);
    AtChar(s, p + 1, t, 5);
    AtRight(hm + ":", Pad2(sod % 60));
    AtCompose(s, p + 1, t, 6, Pad2(sod % 60));
    AtPad2(s, p + 7, sod % 60);
  }

  /** The date fields of a text that starts with a date written by `ISO_LOCAL_DATE`. */
  lemma DatePrefixAt(s: string, d: Date)
    requires ValidDate(d) && -MaxYear <= d.year <= MaxYear && At(s, 0, FormatDate(d))
    ensures var i := |FormatYear(d.year)|;
      && LexYear(s) == Some((d.year, i)) && i + 6 == |FormatDate(d)|
      && s[i] == '-' && s[i + 3] == '-' && TwoDigits(s, i + 1) == Some(d.month as nat) && TwoDigits(s, i + 4) == Some(d.day as nat)
  {
    var y, md := FormatYear(d.year), MonthDay(d.month, d.day);
    AtLeft(y, md);
    AtCompose(s, 0, y + md, 0, y);
    AtRight(y, md);
    AtCompose(s, 0, y + md, |y|, md);
    MonthDayAt(s, |y|, d.month, d.day);
    LexYearAt(s, d.year);
  }

  lemma LexDateTimeOf(s: string, d: Date, time: Option<TimeFields>, j: nat, offset: Option<int>)
    requires ValidDate(d) && -MaxYear <= d.year <= MaxYear && At(s, 0, FormatDate(d))
    requires LexTime(s, |FormatDate(d)|) == Some((time, j))
    requires LexOffset(s, j) == Some((offset, |s|))
    ensures LexDateTime(s) == Some(DateTimeFields(d.year, d.month, d.day, time, offset))
  {
    DatePrefixAt(s, d);
  }

  /** The fields of a text written by `ISO_DATE`: the date and the offset, no time. */
  lemma LexIsoDate(d: Date, o: Offset)
    requires ValidDate(d) && -MaxYear <= d.year <= MaxYear
    ensures LexDateTime(FormatDate(d) + OffsetId(o))
      == Some(DateTimeFields(d.year, d.month, d.day, None, Some(o as int)))
  {
    var fd, id := FormatDate(d), OffsetId(o);
    var s := fd + id;
    AtLeft(fd, id);
    AtRight(fd, id);
    OffsetIdStart(o);
    AtChar(s, |fd|, id, 0);
    assert LexTime(s, |fd|) == Some((None, |fd|));
    LexOffsetAt(s, |fd|, o);
    LexDateTimeOf(s, d, None, |fd|, Some(o as int));
  }

  /** The fields of a date written alone. */
  lemma LexDateOnly(d: Date)
    requires ValidDate(d) && -MaxYear <= d.year <= MaxYear
    ensures LexDateTime(FormatDate(d)) == Some(DateTimeFields(d.year, d.month, d.day, None, None))
  {
    var s := FormatDate(d);
    AtWhole(s);
    assert LexTime(s, |s|) == Some((None, |s|));
    LexDateTimeOf(s, d, None, |s|, None);
  }

  lemma LexDateHourMinute(d: Date, h: int, m: int)
    requires ValidDate(d) && -MaxYear <= d.year <= MaxYear && 0 <= h <= 23 && 0 <= m <= 59
    ensures LexDateTime(DateHourMinute(d, h, m))
      == Some(DateTimeFields(d.year, d.month, d.day, Some(TimeFields(h, m, 0, 0)), None))
  {
    var fd, hm := FormatDate(d), HourMinute(h, m);
    var s := fd + "T" + hm;
    AtLeft(fd + "T", hm);
    AtLeft(fd, "T");
    AtCompose(s, 0, fd + "T", 0, fd);
    AtRight(fd, "T");
    AtCompose(s, 0, fd + "T", |fd|, "T");
    AtChar(s, |fd|, "T", 0);
    AtRight(fd + "T", hm);
    LexTimeHourMinuteAt(s, |fd|, h, m);
    assert LexOffset(s, |s|) == Some((None, |s|));
    LexDateTimeOf(s, d, Some(TimeFields(h, m, 0, 0)), |s|, None);
  }

  lemma LexFormatUtc(d: Date, sod: int)
    requires ValidDate(d) && -MaxYear <= d.year <= MaxYear && 0 <= sod < 86400
    ensures LexDateTime(FormatUtc(d, sod))
      == Some(DateTimeFields(d.year, d.month, d.day, Some(TimeFields(sod / 3600, sod / 60 % 60, sod % 60, 0)), Some(0)))
  {
    var fd, tod := FormatDate(d), FormatTimeOfDay(sod);
    var s := fd + "T" + tod + "Z";
    AtLeft(fd + "T" + tod, "Z");
    AtLeft(fd + "T", tod);
    AtCompose(s, 0, fd + "T" + tod, 0, fd + "T");
    AtLeft(fd, "T");
    AtCompose(s, 0, fd + "T", 0, fd);
    AtRight(fd, "T");
    AtCompose(s, 0, fd + "T", |fd|, "T");
    AtChar(s, |fd|, "T", 0);
    AtRight(fd + "T", tod);
    AtCompose(s, 0, fd + "T" + tod, |fd| + 1, tod);
    AtRight(fd + "T" + tod, "Z");
    AtChar(s, |fd| + 9, "Z", 0);
    LexTimeOfDayAt(s, |fd|, sod);
    assert LexOffset(s, |fd| + 9) == Some((Some(0), |s|));
    LexDateTimeOf(s, d, Some(TimeFields(sod / 3600, sod / 60 % 60, sod % 60, 0)), |fd| + 9, Some(0));
  }

  /**
   * Reading back what `ISO_DATE` wrote gives midnight at the beginning of the written date, at
   * the written offset and with that offset as the zone, with either parser.
   */
  lemma ParseFormatIsoDate(t: ZonedTime)
    requires -MaxYear <= LocalDateOf(t).year <= MaxYear
    ensures ParseToZonedDateTimeAsWritten(FormatIsoDate(t)) == Some(TruncatedToDay(t.(zone := OffsetZone)))
    ensures ParseToZonedDateTime(FormatIsoDate(t)) == Some(TruncatedToDay(t.(zone := OffsetZone)))
  {
    var d := LocalDateOf(t);
    LexIsoDate(d, t.offset);
    ResolveMidnight(d, Some(t.offset as int));
    ParseOfFields(FormatIsoDate(t), DateTimeFields(d.year, d.month, d.day, None, Some(t.offset as int)));
    TruncatedToDayIsMidnight(t.(zone := OffsetZone));
  }

  lemma ParseOfFields(s: string, f: DateTimeFields)
    requires LexDateTime(s) == Some(f)
    ensures ParseToZonedDateTimeAsWritten(s) == ResolveAsWritten(f)
    ensures ParseToZonedDateTime(s) == Resolve(f)
  {
  }

  lemma TruncatedToDayIsMidnight(t: ZonedTime)
    ensures TruncatedToDay(t) == AtSecondOfDay(LocalDateOf(t), 0, t.offset, t.zone)
  {
  }

  /** A date alone is read as midnight of that date in the zone "UTC". */
  lemma ParseDateOnly(d: Date)
    requires ValidDate(d) && -MaxYear <= d.year <= MaxYear
    ensures ParseToZonedDateTimeAsWritten(FormatDate(d)) == Some(AtStartOfDay(d, Utc, DefaultZone))
    ensures ParseToZonedDateTime(FormatDate(d)) == Some(AtStartOfDay(d, Utc, DefaultZone))
  {
    LexDateOnly(d);
    ResolveMidnight(d, None);
    ParseOfFields(FormatDate(d), DateTimeFields(d.year, d.month, d.day, None, None));
  }

  lemma ResolveInstantUtc(d: Date, time: TimeFields)
    requires ValidDate(d) && -MaxYear <= d.year <= MaxYear
    requires time.hour <= 23 && time.minute <= 59 && time.second <= 59
    ensures ResolveInstant(DateTimeFields(d.year, d.month, d.day, Some(time), Some(0)))
      == Some(EpochDay(d) * 86400 + SecondOfDay(time))
  {
    ResolveValidDate(d);
  }

  lemma ParseInstantOfFields(s: string, f: DateTimeFields)
    requires LexDateTime(FoldLetters(s)) == Some(f)
    ensures ParseInstant(s) == ResolveInstant(f)
  {
  }

  /** Texts that differ only in the case of 'T' and 'Z' denote the same instant. */
  lemma ParseInstantIgnoresCase(s: string, u: string)
    requires |s| == |u| && forall i :: 0 <= i < |s| ==> FoldLetter(s[i]) == FoldLetter(u[i])
    ensures ParseInstant(s) == ParseInstant(u)
  {
    assert FoldLetters(s) == FoldLetters(u);
  }

  /** A text without the letters 't' and 'z' is read as it is. */
  predicate NoLowerLetters(s: string) {
    forall i :: 0 <= i < |s| ==> s[i] != 't' && s[i] != 'z'
  }

  lemma NoLowerLettersAppend(a: string, b: string)
    requires NoLowerLetters(a) && NoLowerLetters(b)
    ensures NoLowerLetters(a + b)
  {
    forall i | 0 <= i < |a + b| ensures (a + b)[i] != 't' && (a + b)[i] != 'z' {
      if i >= |a| {
        assert (a + b)[i] == b[i - |a|];
      }
    }
  }

  lemma NoLowerLettersOfDigits(s: string)
    requires AllDigits(s)
    ensures NoLowerLetters(s)
  {
    forall i | 0 <= i < |s| ensures s[i] != 't' && s[i] != 'z' {
      assert IsDigit(s[i]);
    }
  }

  lemma NoLowerLettersFormatUtc(d: Date, sod: int)
    requires ValidDate(d) && 0 <= sod < 86400
    ensures NoLowerLetters(FormatUtc(d, sod))
  {
    var y := d.year;
    if 0 <= y <= 9999 {
      NoLowerLettersOfDigits(Pad4(y));
    } else if y > 9999 {
      NoLowerLettersOfDigits(Decimal(y));
      NoLowerLettersAppend("+", Decimal(y));
    } else if -y <= 9999 {
      NoLowerLettersOfDigits(Pad4(-y));
      NoLowerLettersAppend("-", Pad4(-y));
    } else {
      NoLowerLettersOfDigits(Decimal(-y));
      NoLowerLettersAppend("-", Decimal(-y));
    }
    NoLowerLettersOfDigits(Pad2(d.month));
    NoLowerLettersOfDigits(Pad2(d.day));
    NoLowerLettersAppend("-", Pad2(d.month));
    NoLowerLettersAppend("-" + Pad2(d.month), "-");
    NoLowerLettersAppend("-" + Pad2(d.month) + "-", Pad2(d.day));
    NoLowerLettersAppend(FormatYear(y), MonthDay(d.month, d.day));
    var h, m, sec := sod / 3600, sod / 60 % 60, sod % 60;
    NoLowerLettersOfDigits(Pad2(h));
    NoLowerLettersOfDigits(Pad2(m));
    NoLowerLettersOfDigits(Pad2(sec));
    NoLowerLettersAppend(Pad2(h), ":");
    NoLowerLettersAppend(Pad2(h) + ":", Pad2(m));
    NoLowerLettersAppend(HourMinute(h, m), ":");
    NoLowerLettersAppend(HourMinute(h, m) + ":", Pad2(sec));
    NoLowerLettersAppend(FormatDate(d), "T");
    NoLowerLettersAppend(FormatDate(d) + "T", FormatTimeOfDay(sod));
    NoLowerLettersAppend(FormatDate(d) + "T" + FormatTimeOfDay(sod), "Z");
  }

  lemma ParseFormatUtc(d: Date, sod: int)
    requires ValidDate(d) && -MaxYear <= d.year <= MaxYear && 0 <= sod < 86400
    ensures ParseInstant(FormatUtc(d, sod)) == Some(EpochDay(d) * 86400 + sod)
  {
    NoLowerLettersFormatUtc(d, sod);
    assert FoldLetters(FormatUtc(d, sod)) == FormatUtc(d, sod);
    LexFormatUtc(d, sod);
    ParseInstantOfFields(FormatUtc(d, sod), UtcFields(d, sod));
    ResolveUtcFields(d, sod);
  }

  /** The fields of a UTC date-time text written with whole seconds. */
  function UtcFields(d: Date, sod: nat): DateTimeFields
    requires ValidDate(d) && sod < 86400
  {
    DateTimeFields(d.year, d.month, d.day, Some(TimeFields(sod / 3600, sod / 60 % 60, sod % 60, 0)), Some(0))
  }

  lemma ResolveUtcFields(d: Date, sod: int)
    requires ValidDate(d) && -MaxYear <= d.year <= MaxYear && 0 <= sod < 86400
    ensures ResolveInstant(UtcFields(d, sod)) == Some(EpochDay(d) * 86400 + sod)
  {
    TimeOfDaySplit(sod);
    ResolveInstantUtc(d, TimeFields(sod / 3600, sod / 60 % 60, sod % 60, 0));
  }

  /** An instant printed as text reads back as the same instant. */
  lemma ParseFormatInstant(t: int)
    requires -MaxYear <= DateOfEpochDay(DayOfSecond(t)).year <= MaxYear
    ensures ParseInstant(FormatInstant(t)) == Some(t)
  {
    DayOfSecondBounds(t);
    ParseFormatUtc(DateOfEpochDay(DayOfSecond(t)), t - DayOfSecond(t) * 86400);
  }
}
