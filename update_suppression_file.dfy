/**
 * Re-stamping the expiries of a suppression file: every entry that expires gets the new cutoff
 * (when one is given), entries that never expire keep doing so, and the file is written again,
 * sorted, in the desired zone (UTC unless configured).
 */
module UpdateSuppressionFile {
  import opened Wrappers
  import opened Xml
  import opened IsoDateTime
  import opened Suppression
  import opened SuppressionFile

  /** The zone the file is written in unless another is configured: `ZoneId.of("UTC")`. */
  const DefaultZone: Offset := Utc

  /** `if (until == null) null else (cutoff ?: until)`: the new expiry of an entry. */
  function Restamp(until: Option<ZonedTime>, cutoff: Option<ZonedTime>): (r: Option<ZonedTime>)
    ensures r.None? <==> until.None?
    ensures cutoff.None? ==> r == until
    ensures until.Some? && cutoff.Some? ==> r == cutoff
  {
    if until.None? then None else if cutoff.Some? then cutoff else until
  }

  /** Re-stamping twice with the same cutoff re-stamps once. */
  lemma RestampIdempotent(until: Option<ZonedTime>, cutoff: Option<ZonedTime>)
    ensures Restamp(Restamp(until, cutoff), cutoff) == Restamp(until, cutoff)
  {
  }

  /** `it.copy(suppressUntil = …)`: only the expiry changes. */
  function Updated(e: SuppressionEntry, cutoff: Option<ZonedTime>): (r: SuppressionEntry)
    ensures r.packageUrl == e.packageUrl && r.vulnerabilities == e.vulnerabilities
    ensures r.notes == e.notes && r.packageUrlPattern == e.packageUrlPattern
    ensures r.suppressUntil == Restamp(e.suppressUntil, cutoff)
  {
    e.(suppressUntil := Restamp(e.suppressUntil, cutoff))
  }

  /** The `map` over the parsed entries: one updated entry per entry, in order. */
  function UpdateAll(entries: seq<SuppressionEntry>, cutoff: Option<ZonedTime>): (r: seq<SuppressionEntry>)
    ensures |r| == |entries|
    ensures forall i :: 0 <= i < |entries| ==> r[i] == Updated(entries[i], cutoff)
  {
    if entries == [] then [] else [Updated(entries[0], cutoff)] + UpdateAll(entries[1..], cutoff)
  }

  /** Without a cutoff nothing changes. */
  lemma UpdateWithoutCutoff(entries: seq<SuppressionEntry>)
    ensures UpdateAll(entries, None) == entries
  {
    assert forall i :: 0 <= i < |entries| ==> Updated(entries[i], None) == entries[i];
  }

  /** Updating the updated entries with the same cutoff changes nothing more. */
  lemma UpdateIdempotent(entries: seq<SuppressionEntry>, cutoff: Option<ZonedTime>)
    ensures UpdateAll(UpdateAll(entries, cutoff), cutoff) == UpdateAll(entries, cutoff)
  {
    var u := UpdateAll(entries, cutoff);
    forall i | 0 <= i < |u| ensures Updated(u[i], cutoff) == u[i] {
      RestampIdempotent(entries[i].suppressUntil, cutoff);
    }
  }

  /** What the Gradle task ends with: no original file, the text written, or a file whose `until`
      could not be read. */
  datatype UpdateResult = NothingToUpdate | Written(text: string) | Unreadable

  /**
   * `updateSuppressionFile`: `file` is the original suppression file's document (its top-level
   * nodes), or `None` when there is none; the result is the text written to the output file.
   */
  function UpdateSuppression(file: Option<seq<Node>>, cutoff: Option<ZonedTime>, zone: Offset): (r: UpdateResult)
    ensures file.None? <==> r == NothingToUpdate
    ensures r.Unreadable? <==> file.Some? && ParseFile(file.value).None?
    ensures r.Written? ==> r.text == FileText(UpdateAll(ParseFile(file.value).value, cutoff), zone)
  {
    match file
    case None => NothingToUpdate
    case Some(document) =>
      match ParseFile(document)
      case None => Unreadable
      case Some(entries) => Written(FileText(UpdateAll(entries, cutoff), zone))
  }

  /** Every entry is written: the written file reads back as one entry per original entry, each
      with the new expiry (as midnight of its date) and everything else as before. */
  lemma UpdatedFileReadsBack(entries: seq<SuppressionEntry>, cutoff: Option<ZonedTime>, zone: Offset)
    requires forall e :: e in entries ==> Writable(Updated(e, cutoff), zone)
    ensures ParseFile([FileNode(UpdateAll(entries, cutoff), zone)])
            == Some(Rereads(SortByUntil(UpdateAll(entries, cutoff)), zone))
    ensures |Rereads(SortByUntil(UpdateAll(entries, cutoff)), zone)| == |entries|
  {
    var u := UpdateAll(entries, cutoff);
    forall e | e in u ensures Writable(e, zone) {
      var i :| 0 <= i < |u| && u[i] == e;
      assert entries[i] in entries;
    }
    ParseWrittenFile(u, zone);
    assert |SortByUntil(u)| == |multiset(SortByUntil(u))| == |multiset(u)|;
  }

  /** Every expiry of updated entries is absent or the cutoff itself. */
  predicate StampedWith(s: seq<SuppressionEntry>, cutoff: ZonedTime) {
    forall i :: 0 <= i < |s| ==> s[i].suppressUntil.None? || s[i].suppressUntil == Some(cutoff)
  }

  /** Updating what was read back from a file stamped with the cutoff restores the entries as
      written, up to the notes, which come back as the text they were written as. */
  lemma UpdateRereads(s: seq<SuppressionEntry>, cutoff: ZonedTime, zone: Offset)
    requires StampedWith(s, cutoff)
    ensures |UpdateAll(Rereads(s, zone), Some(cutoff))| == |s|
    ensures forall i :: 0 <= i < |s| ==>
              UpdateAll(Rereads(s, zone), Some(cutoff))[i] == s[i].(notes := NotesValue(s[i]))
  {
  }

  /**
   * The update is idempotent on files too: updating the file it wrote, with the same cutoff and
   * zone, writes the same text again.
   */
  lemma UpdateTwice(entries: seq<SuppressionEntry>, cutoff: Option<ZonedTime>, zone: Offset)
    requires forall e :: e in entries ==> Writable(Updated(e, cutoff), zone)
    ensures UpdateSuppression(Some([FileNode(UpdateAll(entries, cutoff), zone)]), cutoff, zone)
            == Written(FileText(UpdateAll(entries, cutoff), zone))
  {
    var u := UpdateAll(entries, cutoff);
    UpdatedFileReadsBack(entries, cutoff, zone);
    if cutoff.Some? {
      assert StampedWith(u, cutoff.value);
    }
    RewriteUpdated(u, cutoff, zone);
  }

  /** Updating the entries read back from the file written for entries stamped with the cutoff
      writes that file again. */
  lemma RewriteUpdated(u: seq<SuppressionEntry>, cutoff: Option<ZonedTime>, zone: Offset)
    requires cutoff.Some? ==> StampedWith(u, cutoff.value)
    ensures FileText(UpdateAll(Rereads(SortByUntil(u), zone), cutoff), zone) == FileText(u, zone)
  {
    var s := SortByUntil(u);
    if cutoff.None? {
      UpdateWithoutCutoff(Rereads(s, zone));
      FileTextOfRereads(u, zone);
    } else {
      forall i | 0 <= i < |s| ensures s[i].suppressUntil.None? || s[i].suppressUntil == cutoff {
        assert s[i] in multiset(s);
        assert s[i] in multiset(u);
      }
      SortSorted(u);
      UpdateSortedRereads(s, cutoff.value, zone);
      FileTextOfEntriesText(UpdateAll(Rereads(s, zone), cutoff), u, zone);
    }
  }

  /** Lists whose sorted entries are written as the same text are written as the same file. */
  lemma FileTextOfEntriesText(a: seq<SuppressionEntry>, b: seq<SuppressionEntry>, zone: Offset)
    requires EntriesText(SortByUntil(a), zone) == EntriesText(SortByUntil(b), zone)
    ensures FileText(a, zone) == FileText(b, zone)
  {
  }

  /** The entries read back from a sorted file stamped with the cutoff, updated again, are still
      sorted and are written as the same tags. */
  lemma UpdateSortedRereads(s: seq<SuppressionEntry>, cutoff: ZonedTime, zone: Offset)
    requires StampedWith(s, cutoff) && Sorted(s)
    ensures SortByUntil(UpdateAll(Rereads(s, zone), Some(cutoff))) == UpdateAll(Rereads(s, zone), Some(cutoff))
    ensures EntriesText(UpdateAll(Rereads(s, zone), Some(cutoff)), zone) == EntriesText(s, zone)
  {
    var u2 := UpdateAll(Rereads(s, zone), Some(cutoff));
    UpdateRereads(s, cutoff, zone);
    SortedSameKeys(s, u2);
    SortOfSorted(u2);
    forall i | 0 <= i < |s| ensures XmlTag(u2[i], zone) == XmlTag(s[i], zone) {
      NotesTextTag(s[i], zone);
    }
    EntriesTextPointwise(u2, s, zone);
  }

  /** A list with the same expiries, position by position, as a sorted list is sorted. */
  lemma SortedSameKeys(s: seq<SuppressionEntry>, t: seq<SuppressionEntry>)
    requires Sorted(s) && |t| == |s|
    requires forall i :: 0 <= i < |s| ==> t[i].suppressUntil == s[i].suppressUntil
    ensures Sorted(t)
  {
  }

  /** Lists written as the same tags, position by position, are written as the same text. */
  lemma EntriesTextPointwise(a: seq<SuppressionEntry>, b: seq<SuppressionEntry>, zone: Offset)
    requires |a| == |b| && forall i :: 0 <= i < |a| ==> XmlTag(a[i], zone) == XmlTag(b[i], zone)
    ensures EntriesText(a, zone) == EntriesText(b, zone)
  {
    assert TagLines(a, zone) == TagLines(b, zone);
  }

  /** An entry whose notes are replaced by the text they are written as is written alike. */
  lemma NotesTextTag(e: SuppressionEntry, zone: Offset)
    ensures XmlTag(e.(notes := NotesValue(e)), zone) == XmlTag(e, zone)
  {
    var a := e.(notes := NotesValue(e));
    NotesValueOfReread(e, zone);
    assert NotesValue(a) == NotesValue(Reread(e, zone));
    assert UntilValue(a, zone) == UntilValue(e, zone);
    TagTextOfFields(UntilValue(e, zone), NotesValue(e), a, e);
  }

  /** The tag text depends on the entry only through its package URL, its pattern flag and its
      vulnerabilities. */
  lemma TagTextOfFields(until: Option<string>, content: Option<string>, a: SuppressionEntry, b: SuppressionEntry)
    requires a.packageUrl == b.packageUrl && a.packageUrlPattern == b.packageUrlPattern
    requires a.vulnerabilities == b.vulnerabilities
    ensures TagText(until, content, a) == TagText(until, content, b)
  {
    assert PackageUrlLine(a) == PackageUrlLine(b);
  }
}
