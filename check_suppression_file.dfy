/**
 * The policy check of a suppression file: an entry is appropriate when its notes flag it as a
 * false positive, or when it expires strictly before a cutoff (by default a year from now).
 * The check fails, with one error line per inappropriate entry, as soon as one entry is not.
 */
module CheckSuppressionFile {
  import opened Wrappers
  import opened Strings
  import opened Xml
  import opened Calendar
  import opened IsoDateTime
  import opened Sequences
  import opened Suppression
  import opened SuppressionFile

  // ---------------------------------------------------------------------------------------------
  // The default false-positive pattern: `false[\s-_]positive`, case-insensitive

  /**
   * A character of the notes matches a lower-case ASCII letter of the pattern under
   * `IGNORE_CASE`, which Kotlin always combines with Unicode case folding: the character folds
   * (upper case, then lower case) to that letter. Besides both ASCII cases, this admits the
   * dotless and the dotted i for 'i' and the long s for 's'.
   */
  predicate LetterMatches(c: char, letter: char) {
    LowerCase(UpperCase(c)) == letter
  }

  /** The word `w` (lower-case ASCII letters) is matched at position `i` of `s`. */
  predicate WordAt(s: string, i: nat, w: string) {
    i + |w| <= |s| && forall k :: 0 <= k < |w| ==> LetterMatches(s[i + k], w[k])
  }

  /** The character class `[\s-_]`: a `\s` character, '-' or '_'. */
  predicate IsSeparator(c: char) {
    IsRegexSpace(c) || c == '-' || c == '_'
  }

  /** The default pattern matches the fourteen characters of `s` from `i` on. */
  predicate FalsePositiveAt(s: string, i: nat) {
    WordAt(s, i, "false") && i + 5 < |s| && IsSeparator(s[i + 5]) && WordAt(s, i + 6, "positive")
  }

  /** The leftmost match of the default pattern at or after `from`, scanning left to right. */
  function FindFalsePositive(s: string, from: nat): (r: Option<nat>)
    ensures r.Some? ==> from <= r.value && FalsePositiveAt(s, r.value)
    ensures r.Some? ==> forall j :: from <= j < r.value ==> !FalsePositiveAt(s, j)
    ensures r.None? ==> forall j :: from <= j ==> !FalsePositiveAt(s, j)
    decreases |s| - from
  {
    if from + 14 > |s| then None
    else if FalsePositiveAt(s, from) then Some(from)
    else FindFalsePositive(s, from + 1)
  }

  /** `notes.contains(Regex("false[\\s-_]positive", RegexOption.IGNORE_CASE))`. */
  predicate ContainsFalsePositive(notes: string) {
    FindFalsePositive(notes, 0).Some?
  }

  /** `contains` searches the whole text: it holds exactly when the pattern matches somewhere. */
  lemma ContainsFalsePositiveIff(notes: string)
    ensures ContainsFalsePositive(notes) <==> exists i: nat :: FalsePositiveAt(notes, i)
  {
    if ContainsFalsePositive(notes) {
      assert FalsePositiveAt(notes, FindFalsePositive(notes, 0).value);
    }
  }

  /** Any text around "false positive", written in any letter case and with any of the three
      separators, is flagged. */
  lemma FlaggedAnywhere(pre: string, word1: string, sep: char, word2: string, post: string)
    requires |word1| == 5 && forall k :: 0 <= k < 5 ==> LowerCase(word1[k]) == "false"[k]
    requires |word2| == 8 && forall k :: 0 <= k < 8 ==> LowerCase(word2[k]) == "positive"[k]
    requires forall k :: 0 <= k < 5 ==> 'A' <= word1[k] <= 'Z' || 'a' <= word1[k] <= 'z'
    requires forall k :: 0 <= k < 8 ==> 'A' <= word2[k] <= 'Z' || 'a' <= word2[k] <= 'z'
    requires IsSeparator(sep)
    ensures ContainsFalsePositive(pre + word1 + [sep] + word2 + post)
  {
    var s := pre + word1 + [sep] + word2 + post;
    var i := |pre|;
    forall k | 0 <= k < 5 ensures LetterMatches(s[i + k], "false"[k]) {
      assert s[i + k] == word1[k];
    }
    assert s[i + 5] == sep;
    forall k | 0 <= k < 8 ensures LetterMatches(s[i + 6 + k], "positive"[k]) {
      assert s[i + 6 + k] == word2[k];
    }
    assert FalsePositiveAt(s, i);
    ContainsFalsePositiveIff(s);
  }

  /** Without a separator the words do not match. */
  lemma FalsePositiveNeedsSeparator()
    ensures !ContainsFalsePositive("falsepositive")
  {
    var s := "falsepositive";
    forall j: nat ensures !FalsePositiveAt(s, j) {
      if j == 0 {
        assert !IsSeparator(s[5]);
      }
    }
    ContainsFalsePositiveIff(s);
  }

  // ---------------------------------------------------------------------------------------------
  // Classification

  /** `ZonedDateTime.now().plusDays(365)`: the same local time 365 days later, at the same offset
      and in the same zone. */
  function DefaultMaxSuppressUntil(now: ZonedTime): (r: ZonedTime)
    ensures r.offset == now.offset && r.zone == now.zone
    ensures EpochDay(LocalDateOf(r)) == EpochDay(LocalDateOf(now)) + 365
    ensures LocalSecond(r) % 86400 == LocalSecond(now) % 86400
  {
    var r := ZonedTime(now.instant + 365 * 86400, now.offset, now.zone);
    var d := DayOfSecond(LocalSecond(now));
    DayOfSecondBounds(LocalSecond(now));
    assert LocalSecond(r) == (d + 365) * 86400 + (LocalSecond(now) - d * 86400);
    DayOfMidnight(d + 365, LocalSecond(now) - d * 86400);
    r
  }

  /**
   * The entry neither carries a false-positive note (`falsePositive` is the pattern's
   * `containsMatchIn`) nor expires strictly before `maxSuppressUntil`.
   */
  predicate Inappropriate(e: SuppressionEntry, falsePositive: string -> bool, maxSuppressUntil: ZonedTime) {
    !(e.notes.Some? && falsePositive(e.notes.value))
    && !(e.suppressUntil.Some? && IsBefore(e.suppressUntil.value, maxSuppressUntil))
  }

  /** The inappropriate entries, in file order. */
  function InappropriateEntries(entries: seq<SuppressionEntry>, falsePositive: string -> bool, maxSuppressUntil: ZonedTime)
    : (r: seq<SuppressionEntry>)
    ensures IsSubsequence(r, entries)
    ensures forall i :: 0 <= i < |r| ==> Inappropriate(r[i], falsePositive, maxSuppressUntil)
    ensures forall i :: 0 <= i < |entries| && Inappropriate(entries[i], falsePositive, maxSuppressUntil) ==> entries[i] in r
  {
    if entries == [] then []
    else
      var rest := InappropriateEntries(entries[1..], falsePositive, maxSuppressUntil);
      assert entries == [entries[0]] + entries[1..];
      assert forall i :: 0 < i < |entries| ==> entries[i] == entries[1..][i - 1];
      if Inappropriate(entries[0], falsePositive, maxSuppressUntil) then
        SubsequenceCons(entries[0], rest, entries[1..]);
        [entries[0]] + rest
      else
        SubsequenceSkip(entries[0], rest, entries[1..]);
        rest
  }

  predicate AllAppropriate(entries: seq<SuppressionEntry>, falsePositive: string -> bool, maxSuppressUntil: ZonedTime) {
    forall i :: 0 <= i < |entries| ==> !Inappropriate(entries[i], falsePositive, maxSuppressUntil)
  }

  /** The check finds nothing exactly when every entry is appropriate. */
  lemma NoneInappropriate(entries: seq<SuppressionEntry>, falsePositive: string -> bool, maxSuppressUntil: ZonedTime)
    ensures InappropriateEntries(entries, falsePositive, maxSuppressUntil) == []
            <==> AllAppropriate(entries, falsePositive, maxSuppressUntil)
  {
    var r := InappropriateEntries(entries, falsePositive, maxSuppressUntil);
    if r != [] {
      SubsequenceElements(r, entries);
      assert r[0] in entries;
    }
  }

  /** An entry without notes and without expiry is always inappropriate, and so is one that
      expires exactly at the cutoff: only an expiry strictly before the cutoff is appropriate. */
  lemma InappropriateBoundary(e: SuppressionEntry, falsePositive: string -> bool, maxSuppressUntil: ZonedTime)
    ensures e.notes.None? && e.suppressUntil.None? ==> Inappropriate(e, falsePositive, maxSuppressUntil)
    ensures ((e.notes.None? || !falsePositive(e.notes.value)) && e.suppressUntil.Some?
             && e.suppressUntil.value.instant == maxSuppressUntil.instant)
      ==> Inappropriate(e, falsePositive, maxSuppressUntil)
  {
  }

  // ---------------------------------------------------------------------------------------------
  // The Gradle task

  /** The names of the vulnerabilities, in order. */
  function Names(vs: seq<Vulnerability>): (r: seq<string>)
    ensures |r| == |vs| && forall i :: 0 <= i < |vs| ==> r[i] == vs[i].name
  {
    if vs == [] then [] else [vs[0].name] + Names(vs[1..])
  }

  const ErrorPrefix: string := "the suppression file entry for "

  /** The error logged for an inappropriate entry: its package URL and the names of its
      vulnerabilities. */
  function ErrorLine(e: SuppressionEntry): (r: string)
    ensures |ErrorPrefix| + |e.packageUrl| <= |r|
    ensures r[..|ErrorPrefix|] == ErrorPrefix
    ensures r[|ErrorPrefix|..|ErrorPrefix| + |e.packageUrl|] == e.packageUrl
  {
    var tail := " (" + JoinToString(Names(e.vulnerabilities), ", ") + ErrorSuffix;
    var r := ErrorPrefix + e.packageUrl + tail;
    assert r == ErrorPrefix + (e.packageUrl + tail);
    r
  }

  const ErrorSuffix: string := ") does neither contain FALSE POSITIVE note nor an appropriate expiration date"

  function ErrorLines(entries: seq<SuppressionEntry>): (r: seq<string>)
    ensures |r| == |entries| && forall i :: 0 <= i < |entries| ==> r[i] == ErrorLine(entries[i])
  {
    if entries == [] then [] else [ErrorLine(entries[0])] + ErrorLines(entries[1..])
  }

  /** What the check ends with: success, the error lines and the failure message, or the failure
      of reading an `until` date of the file. */
  datatype CheckResult = Passed | Failed(errors: seq<string>, message: string) | Unreadable

  /**
   * `checkSuppressionFile`. `file` is the suppression file's document (its top-level nodes), or
   * `None` when no file is configured; `path` is how the file prints itself.
   */
  function CheckSuppression(file: Option<seq<Node>>, path: string, falsePositive: string -> bool, maxSuppressUntil: ZonedTime)
    : (r: CheckResult)
    ensures file.None? ==> r == Passed
    ensures r.Unreadable? <==> file.Some? && ParseFile(file.value).None?
    ensures r.Failed? <==> (file.Some? && ParseFile(file.value).Some?
                            && !AllAppropriate(ParseFile(file.value).value, falsePositive, maxSuppressUntil))
    ensures r.Failed? ==> r.errors == ErrorLines(InappropriateEntries(ParseFile(file.value).value, falsePositive, maxSuppressUntil))
  {
    match file
    case None => Passed
    case Some(document) =>
      match ParseFile(document)
      case None => Unreadable
      case Some(entries) => CheckEntries(entries, path, falsePositive, maxSuppressUntil)
  }

  /** The check of the entries of a readable file: it fails, listing the inappropriate entries,
      exactly when some entry is inappropriate. */
  function CheckEntries(entries: seq<SuppressionEntry>, path: string, falsePositive: string -> bool, maxSuppressUntil: ZonedTime)
    : (r: CheckResult)
    ensures !r.Unreadable?
    ensures r.Failed? <==> !AllAppropriate(entries, falsePositive, maxSuppressUntil)
    ensures r.Failed? ==> r.errors == ErrorLines(InappropriateEntries(entries, falsePositive, maxSuppressUntil))
  {
    var inappropriate := InappropriateEntries(entries, falsePositive, maxSuppressUntil);
    NoneInappropriate(entries, falsePositive, maxSuppressUntil);
    if inappropriate == [] then Passed else Failed(ErrorLines(inappropriate), FailureMessage(path))
  }

  /** The message of the exception that fails the check. */
  function FailureMessage(path: string): string {
    FailurePrefix + path + FailureSuffix
  }

  const FailurePrefix: string := "Some entries in the DC suppression file "
  const FailureSuffix: string :=
    " do neither have a FALSE POSITIVE note nor an appropriate expiration date set (at max the suppression expiration should be one year)"

  /** With the default settings, an entry expiring within the next 365 days passes. */
  lemma ExpiringWithinAYearPasses(e: SuppressionEntry, now: ZonedTime)
    requires e.suppressUntil.Some? && e.suppressUntil.value.instant < now.instant + 365 * 86400
    ensures !Inappropriate(e, ContainsFalsePositive, DefaultMaxSuppressUntil(now))
  {
  }
}
