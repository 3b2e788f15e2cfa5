/**
 * A whole suppression file: the entries sorted by expiry (`sortedBy { it.suppressUntil }`),
 * written one tag after another inside `<suppressions>` (`writeTo`), and read back from the
 * DOM tree of the file (`parseAsDependencyCheckSuppressionFile`).
 */
module SuppressionFile {
  import opened Wrappers
  import opened Strings
  import opened Xml
  import opened IsoDateTime
  import opened Suppression

  // ---------------------------------------------------------------------------------------------
  // Sorting by expiry

  /** `compareValues(a, b) <= 0` on nullable expiries: no expiry comes first, then `compareTo`. */
  predicate KeyNotAfter(a: Option<ZonedTime>, b: Option<ZonedTime>) {
    a.None? || (b.Some? && NotAfter(a.value, b.value))
  }

  /** The order of nullable expiries is a total order. */
  lemma KeyNotAfterIsTotalOrder(a: Option<ZonedTime>, b: Option<ZonedTime>, c: Option<ZonedTime>)
    ensures KeyNotAfter(a, a)
    ensures KeyNotAfter(a, b) && KeyNotAfter(b, a) ==> a == b
    ensures KeyNotAfter(a, b) && KeyNotAfter(b, c) ==> KeyNotAfter(a, c)
    ensures KeyNotAfter(a, b) || KeyNotAfter(b, a)
  {
    if a.Some? && b.Some? && c.Some? {
      NotAfterIsTotalOrder(a.value, b.value, c.value);
    } else if a.Some? && b.Some? {
      NotAfterIsTotalOrder(a.value, b.value, b.value);
    } else if a.Some? {
      NotAfterIsTotalOrder(a.value, a.value, a.value);
    }
  }

  /** Each entry expires no earlier than the one before it. */
  predicate Sorted(s: seq<SuppressionEntry>) {
    forall i :: 0 < i < |s| ==> KeyNotAfter(s[i - 1].suppressUntil, s[i].suppressUntil)
  }

  /** In a sorted list every entry expires no earlier than every entry before it. */
  lemma {:induction false} SortedAllPairs(s: seq<SuppressionEntry>, i: nat, j: nat)
    requires Sorted(s) && i <= j < |s|
    ensures KeyNotAfter(s[i].suppressUntil, s[j].suppressUntil)
    decreases j - i
  {
    if i == j {
      KeyNotAfterIsTotalOrder(s[i].suppressUntil, s[i].suppressUntil, s[i].suppressUntil);
    } else {
      SortedAllPairs(s, i + 1, j);
      KeyNotAfterIsTotalOrder(s[i].suppressUntil, s[i + 1].suppressUntil, s[j].suppressUntil);
    }
  }

  /** `x` inserted into `s` in front of the first entry that expires strictly later than `x`. */
  function Insert(x: SuppressionEntry, s: seq<SuppressionEntry>): (r: seq<SuppressionEntry>)
    ensures multiset(r) == multiset(s) + multiset{x}
    ensures r[0] == x || (s != [] && r[0] == s[0])
  {
    if s == [] || !KeyNotAfter(s[0].suppressUntil, x.suppressUntil) then [x] + s
    else
      assert s == [s[0]] + s[1..];
      [s[0]] + Insert(x, s[1..])
  }

  /**
   * `sortedBy { it.suppressUntil }`, as insertion sort: each entry is inserted after every
   * earlier entry that does not expire later. Kotlin's `sortedBy` is a stable sort, and the
   * lemmas below show this one is sorted and stable too.
   */
  function SortByUntil(s: seq<SuppressionEntry>): (r: seq<SuppressionEntry>)
    ensures multiset(r) == multiset(s)
    decreases |s|
  {
    if s == [] then []
    else
      assert s == s[..|s| - 1] + [s[|s| - 1]];
      Insert(s[|s| - 1], SortByUntil(s[..|s| - 1]))
  }

  lemma {:induction false} InsertSorted(x: SuppressionEntry, s: seq<SuppressionEntry>)
    requires Sorted(s)
    ensures Sorted(Insert(x, s))
  {
    if s == [] || !KeyNotAfter(s[0].suppressUntil, x.suppressUntil) {
      var r := [x] + s;
      forall i | 0 < i < |r| ensures KeyNotAfter(r[i - 1].suppressUntil, r[i].suppressUntil) {
        if i == 1 {
          KeyNotAfterIsTotalOrder(x.suppressUntil, s[0].suppressUntil, s[0].suppressUntil);
        } else {
          assert r[i - 1] == s[i - 2] && r[i] == s[i - 1];
        }
      }
    } else {
      var t := s[1..];
      SortedTail(s);
      InsertSorted(x, t);
      var u := Insert(x, t);
      var r := [s[0]] + u;
      forall i | 0 < i < |r| ensures KeyNotAfter(r[i - 1].suppressUntil, r[i].suppressUntil) {
        if i == 1 {
          assert r[1] == u[0];
        } else {
          assert r[i - 1] == u[i - 2] && r[i] == u[i - 1];
        }
      }
    }
  }

  /** The sorted list is sorted by expiry. */
  lemma {:induction false} SortSorted(s: seq<SuppressionEntry>)
    ensures Sorted(SortByUntil(s))
    decreases |s|
  {
    if s != [] {
      SortSorted(s[..|s| - 1]);
      InsertSorted(s[|s| - 1], SortByUntil(s[..|s| - 1]));
    }
  }

  /** The entries of `s` with expiry `k`, in order. */
  function WithUntil(s: seq<SuppressionEntry>, k: Option<ZonedTime>): (r: seq<SuppressionEntry>)
    ensures |r| <= |s|
  {
    if s == [] then []
    else (if s[0].suppressUntil == k then [s[0]] else []) + WithUntil(s[1..], k)
  }

  lemma {:induction false} WithUntilAppend(a: seq<SuppressionEntry>, b: seq<SuppressionEntry>, k: Option<ZonedTime>)
    ensures WithUntil(a + b, k) == WithUntil(a, k) + WithUntil(b, k)
  {
    if a != [] {
      var h := if a[0].suppressUntil == k then [a[0]] else [];
      assert (a + b)[0] == a[0] && (a + b)[1..] == a[1..] + b;
      assert WithUntil(a + b, k) == h + WithUntil(a[1..] + b, k);
      WithUntilAppend(a[1..], b, k);
      SeqAssociative(h, WithUntil(a[1..], k), WithUntil(b, k));
    } else {
      assert a + b == b;
    }
  }

  lemma WithUntilOne(x: SuppressionEntry, k: Option<ZonedTime>)
    ensures WithUntil([x], k) == if x.suppressUntil == k then [x] else []
  {
    assert [x][1..] == [];
  }

  lemma {:induction false} WithUntilNone(s: seq<SuppressionEntry>, k: Option<ZonedTime>)
    requires forall j :: 0 <= j < |s| ==> s[j].suppressUntil != k
    ensures WithUntil(s, k) == []
  {
    if s != [] {
      WithUntilNone(s[1..], k);
    }
  }

  /** No entry of a sorted list expires at `k` when its first entry expires strictly later. */
  lemma NoneWithUntil(s: seq<SuppressionEntry>, k: Option<ZonedTime>)
    requires Sorted(s) && s != [] && !KeyNotAfter(s[0].suppressUntil, k)
    ensures WithUntil(s, k) == []
  {
    forall j | 0 <= j < |s| ensures s[j].suppressUntil != k {
      SortedAllPairs(s, 0, j);
    }
    WithUntilNone(s, k);
  }

  lemma SortedTail(s: seq<SuppressionEntry>)
    requires Sorted(s) && s != []
    ensures Sorted(s[1..])
  {
    var t := s[1..];
    forall i | 0 < i < |t| ensures KeyNotAfter(t[i - 1].suppressUntil, t[i].suppressUntil) {
      assert t[i - 1] == s[i] && t[i] == s[i + 1];
    }
  }

  /** Inserting into a sorted list puts `x` after every entry with the same expiry. */
  lemma {:induction false} InsertWithUntil(x: SuppressionEntry, s: seq<SuppressionEntry>, k: Option<ZonedTime>)
    requires Sorted(s)
    ensures WithUntil(Insert(x, s), k) == WithUntil(s, k) + WithUntil([x], k)
  {
    if s == [] {
      assert Insert(x, s) == [x];
    } else if !KeyNotAfter(s[0].suppressUntil, x.suppressUntil) {
      InsertInFront(x, s, k);
    } else {
      SortedTail(s);
      InsertWithUntil(x, s[1..], k);
      InsertBehind(x, s, k);
    }
  }

  lemma InsertInFront(x: SuppressionEntry, s: seq<SuppressionEntry>, k: Option<ZonedTime>)
    requires Sorted(s) && s != [] && !KeyNotAfter(s[0].suppressUntil, x.suppressUntil)
    ensures WithUntil(Insert(x, s), k) == WithUntil(s, k) + WithUntil([x], k)
  {
    assert Insert(x, s) == [x] + s;
    WithUntilAppend([x], s, k);
    WithUntilOne(x, k);
    if x.suppressUntil == k {
      NoneWithUntil(s, k);
    }
  }

  lemma InsertBehind(x: SuppressionEntry, s: seq<SuppressionEntry>, k: Option<ZonedTime>)
    requires s != [] && KeyNotAfter(s[0].suppressUntil, x.suppressUntil)
    requires WithUntil(Insert(x, s[1..]), k) == WithUntil(s[1..], k) + WithUntil([x], k)
    ensures WithUntil(Insert(x, s), k) == WithUntil(s, k) + WithUntil([x], k)
  {
    var t := s[1..];
    var a := WithUntil([s[0]], k);
    InsertSkips(x, s);
    calc {
      WithUntil(Insert(x, s), k);
      WithUntil([s[0]] + Insert(x, t), k);
      { WithUntilAppend([s[0]], Insert(x, t), k); }
      a + WithUntil(Insert(x, t), k);
      a + (WithUntil(t, k) + WithUntil([x], k));
      { SeqAssociative(a, WithUntil(t, k), WithUntil([x], k)); }
      a + WithUntil(t, k) + WithUntil([x], k);
      { WithUntilCons(s, k); }
      WithUntil(s, k) + WithUntil([x], k);
    }
  }

  lemma WithUntilCons(s: seq<SuppressionEntry>, k: Option<ZonedTime>)
    requires s != []
    ensures WithUntil(s, k) == WithUntil([s[0]], k) + WithUntil(s[1..], k)
  {
    WithUntilOne(s[0], k);
  }

  lemma InsertSkips(x: SuppressionEntry, s: seq<SuppressionEntry>)
    requires s != [] && KeyNotAfter(s[0].suppressUntil, x.suppressUntil)
    ensures Insert(x, s) == [s[0]] + Insert(x, s[1..])
  {
  }

  lemma SeqAssociative(a: seq<SuppressionEntry>, b: seq<SuppressionEntry>, c: seq<SuppressionEntry>)
    ensures a + (b + c) == a + b + c
  {
  }

  /** The sort is stable: entries with the same expiry keep their order. */
  lemma {:induction false} SortStable(s: seq<SuppressionEntry>, k: Option<ZonedTime>)
    ensures WithUntil(SortByUntil(s), k) == WithUntil(s, k)
    decreases |s|
  {
    if s != [] {
      var p := s[..|s| - 1];
      var x := s[|s| - 1];
      SortStable(p, k);
      SortSorted(p);
      InsertWithUntil(x, SortByUntil(p), k);
      assert s == p + [x];
      WithUntilAppend(p, [x], k);
    }
  }

  /** Inserting an entry that expires no earlier than all of a list appends it. */
  lemma {:induction false} InsertLast(x: SuppressionEntry, s: seq<SuppressionEntry>)
    requires forall i :: 0 <= i < |s| ==> KeyNotAfter(s[i].suppressUntil, x.suppressUntil)
    ensures Insert(x, s) == s + [x]
  {
    if s != [] {
      var t := s[1..];
      assert forall i :: 0 <= i < |t| ==> t[i] == s[i + 1];
      InsertLast(x, t);
      InsertSkips(x, s);
      calc {
        Insert(x, s);
        [s[0]] + (t + [x]);
        { SeqAssociative([s[0]], t, [x]); }
        [s[0]] + t + [x];
        { assert [s[0]] + t == s; }
        s + [x];
      }
    }
  }

  /** Sorting a sorted list changes nothing. */
  lemma {:induction false} SortOfSorted(s: seq<SuppressionEntry>)
    requires Sorted(s)
    ensures SortByUntil(s) == s
    decreases |s|
  {
    if s != [] {
      var p := s[..|s| - 1];
      var x := s[|s| - 1];
      SortedPrefix(s);
      SortOfSorted(p);
      InsertLast(x, p);
      assert p + [x] == s;
    }
  }

  /** Dropping the last entry of a sorted list leaves it sorted, and no entry of the rest expires
      later than the last. */
  lemma SortedPrefix(s: seq<SuppressionEntry>)
    requires Sorted(s) && s != []
    ensures Sorted(s[..|s| - 1])
    ensures forall i :: 0 <= i < |s| - 1 ==> KeyNotAfter(s[i].suppressUntil, s[|s| - 1].suppressUntil)
  {
    forall i | 0 <= i < |s| - 1 ensures KeyNotAfter(s[i].suppressUntil, s[|s| - 1].suppressUntil) {
      SortedAllPairs(s, i, |s| - 1);
    }
  }

  // ---------------------------------------------------------------------------------------------
  // Writing the file

  const Declaration: string := "<?xml version=\"1.0\" encoding=\"UTF-8\"?>"
  const Namespace: string := "https://jeremylong.github.io/DependencyCheck/dependency-suppression.1.3.xsd"

  /** The start tag of the root element, with the namespace of the suppression schema 1.3. */
  function RootLine(): string {
    "<suppressions xmlns=\"" + Namespace + "\">" + "\n"
  }

  /** The tag of each entry, followed by an empty line. */
  function TagLines(s: seq<SuppressionEntry>, zone: Offset): (r: seq<string>)
    ensures |r| == |s| && forall i :: 0 <= i < |s| ==> r[i] == XmlTag(s[i], zone) + "\n"
  {
    if s == [] then [] else [XmlTag(s[0], zone) + "\n"] + TagLines(s[1..], zone)
  }

  /** The tags of the entries, in the given order, each followed by an empty line. */
  function EntriesText(s: seq<SuppressionEntry>, zone: Offset): string {
    Concat(TagLines(s, zone))
  }

  /** The text `writeTo` writes: the XML declaration, the root element and the entries sorted by expiry. */
  function FileText(entries: seq<SuppressionEntry>, zone: Offset): string {
    Declaration + "\n" + RootLine() + EntriesText(SortByUntil(entries), zone) + "</suppressions>\n"
  }

  /** `writeTo`, building the text of the file; writing it to the file is left to the caller. */
  method WriteTo(entries: seq<SuppressionEntry>, zone: Offset) returns (text: string)
    ensures text == FileText(entries, zone)
  {
    text := Declaration + "\n";
    text := text + ("<suppressions xmlns=\"" + Namespace + "\">" + "\n");
    var sorted := SortByUntil(entries);
    ghost var lines := TagLines(sorted, zone);
    var head := text;
    var i := 0;
    while i < |sorted|
      invariant 0 <= i <= |sorted|
      invariant text == head + Concat(lines[..i])
    {
      var tag := AsXmlTag(sorted[i], zone);
      ConcatSnoc(lines, i);
      Associative4(head, Concat(lines[..i]), tag, "\n");
      text := text + tag;
      text := text + "\n";
      i := i + 1;
    }
    assert lines[..i] == lines;
    text := text + "</suppressions>\n";
  }

  // ---------------------------------------------------------------------------------------------
  // The file, as a DOM tree

  /** The children of `<suppressions>`: the whitespace before each `<suppress>` element is a text
      node, `pre` and four spaces before the first one, an empty line and four spaces before the
      others, and `pre` or an empty line before the end tag. */
  function EntryNodes(pre: string, s: seq<SuppressionEntry>, zone: Offset): seq<Node>
    decreases |s|
  {
    if s == [] then [Text(pre)]
    else [Text(pre + Indent4), SuppressNode(s[0], zone)] + EntryNodes("\n\n", s[1..], zone)
  }

  function SuppressionsNode(s: seq<SuppressionEntry>, zone: Offset): Node {
    Element("suppressions", [("xmlns", Namespace)], EntryNodes("\n", s, zone))
  }

  /** The root element of the file `writeTo` writes. */
  function FileNode(entries: seq<SuppressionEntry>, zone: Offset): Node {
    SuppressionsNode(SortByUntil(entries), zone)
  }

  lemma EntryStep(pre: string, tag: string, rest: string, entries: string)
    requires rest == "\n\n" + entries
    ensures pre + Indent4 + tag + rest == pre + (Indent4 + tag + "\n" + "\n" + entries)
  {
  }

  lemma {:induction false} EntryNodesRender(pre: string, s: seq<SuppressionEntry>, zone: Offset)
    ensures RenderAll(EntryNodes(pre, s, zone)) == pre + EntriesText(s, zone)
    decreases |s|
  {
    if s == [] {
      RenderAllOne(Text(pre));
    } else {
      var n := SuppressNode(s[0], zone);
      var head := [Text(pre + Indent4), n];
      RenderAllAppend(head, EntryNodes("\n\n", s[1..], zone));
      assert RenderAll(head) == pre + Indent4 + Render(n) by {
        assert head[1..] == [n];
        RenderAllOne(n);
      }
      EntryNodesRender("\n\n", s[1..], zone);
      XmlTagRenders(s[0], zone);
      var lines := TagLines(s, zone);
      assert lines[1..] == TagLines(s[1..], zone);
      assert EntriesText(s, zone) == lines[0] + EntriesText(s[1..], zone);
      EntryStep(pre, Render(n), RenderAll(EntryNodes("\n\n", s[1..], zone)), EntriesText(s[1..], zone));
    }
  }

  lemma RootTags(ns: string)
    ensures OpenTag("suppressions", [("xmlns", ns)]) + "\n" == "<suppressions xmlns=\"" + ns + "\">" + "\n"
    ensures CloseTag("suppressions") + "\n" == "</suppressions>\n"
  {
    var a := [("xmlns", ns)];
    assert a[1..] == [];
    assert RenderAttributes(a) == " " + "xmlns" + "=\"" + ns + "\"";
  }

  lemma FileShape(decl: string, open: string, entries: string, close: string, rootLine: string, endLine: string)
    requires rootLine == open + "\n" && endLine == close + "\n"
    ensures decl + "\n" + rootLine + entries + endLine == decl + "\n" + (open + ("\n" + entries) + close) + "\n"
  {
  }

  /** The text `writeTo` writes is the XML declaration and then the tree of `FileNode`. */
  lemma FileTextRenders(entries: seq<SuppressionEntry>, zone: Offset)
    ensures FileText(entries, zone) == Declaration + "\n" + Render(FileNode(entries, zone)) + "\n"
  {
    var s := SortByUntil(entries);
    EntryNodesRender("\n", s, zone);
    RootTags(Namespace);
    FileShape(Declaration, OpenTag("suppressions", [("xmlns", Namespace)]), EntriesText(s, zone),
      CloseTag("suppressions"), RootLine(), "</suppressions>\n");
  }

  // ---------------------------------------------------------------------------------------------
  // Reading the file

  /** `mapNotNull` over the children of `<suppressions>`: `None` as soon as one `until` cannot be read. */
  function ParseNodes(ns: seq<Node>): (r: Option<seq<SuppressionEntry>>)
    ensures r.None? <==> exists i :: 0 <= i < |ns| && ReadUntil(ns[i]).None?
    ensures r.Some? ==> |r.value| <= |ns|
  {
    if ns == [] then Some([])
    else
      var rest := ParseNodes(ns[1..]);
      assert forall i :: 0 < i < |ns| ==> ns[i] == ns[1..][i - 1];
      match ParseSuppression(ns[0])
      case None => None
      case Some(None) => rest
      case Some(Some(e)) => if rest.Some? then Some([e] + rest.value) else None
  }

  /** `parseAsDependencyCheckSuppressionFile` on the child nodes of the document: the entries of
      every `<suppress>` child of every top-level element. */
  function ParseFile(document: seq<Node>): Option<seq<SuppressionEntry>> {
    ParseNodes(AllChildren(document))
  }

  /** The entries read back from `entries` written in `zone`. */
  function Rereads(s: seq<SuppressionEntry>, zone: Offset): (r: seq<SuppressionEntry>)
    ensures |r| == |s| && forall i :: 0 <= i < |s| ==> r[i] == Reread(s[i], zone)
  {
    if s == [] then [] else [Reread(s[0], zone)] + Rereads(s[1..], zone)
  }

  /** A whitespace text node among the children of `<suppressions>` holds no entry. */
  lemma TextHoldsNoEntry(t: string)
    ensures ParseSuppression(Text(t)) == Some(None)
  {
  }

  lemma {:induction false} ParseEntryNodes(pre: string, s: seq<SuppressionEntry>, zone: Offset)
    requires forall i :: 0 <= i < |s| ==> Writable(s[i], zone)
    ensures ParseNodes(EntryNodes(pre, s, zone)) == Some(Rereads(s, zone))
    decreases |s|
  {
    if s == [] {
      TextHoldsNoEntry(pre);
      assert [Text(pre)][1..] == [];
    } else {
      var n := SuppressNode(s[0], zone);
      var rest := EntryNodes("\n\n", s[1..], zone);
      var ns := [Text(pre + Indent4), n] + rest;
      assert ns[1..] == [n] + rest && ns[1..][1..] == rest;
      TextHoldsNoEntry(pre + Indent4);
      ParseSuppressNode(s[0], zone);
      ParseEntryNodes("\n\n", s[1..], zone);
      assert Rereads(s, zone) == [Reread(s[0], zone)] + Rereads(s[1..], zone);
    }
  }

  /** Sorting keeps the entries, so it keeps a property all of them have. */
  lemma WritableSorted(entries: seq<SuppressionEntry>, zone: Offset)
    requires forall e :: e in entries ==> Writable(e, zone)
    ensures forall i :: 0 <= i < |SortByUntil(entries)| ==> Writable(SortByUntil(entries)[i], zone)
  {
    var s := SortByUntil(entries);
    forall i | 0 <= i < |s| ensures Writable(s[i], zone) {
      assert s[i] in multiset(s);
      assert s[i] in multiset(entries);
    }
  }

  /** Reading the tree of a written file gives back the entries in the order they were written,
      each as `Reread` says. */
  lemma ParseWrittenFile(entries: seq<SuppressionEntry>, zone: Offset)
    requires forall e :: e in entries ==> Writable(e, zone)
    ensures ParseFile([FileNode(entries, zone)]) == Some(Rereads(SortByUntil(entries), zone))
  {
    WritableSorted(entries, zone);
    AllChildrenOne(FileNode(entries, zone));
    ParseEntryNodes("\n", SortByUntil(entries), zone);
  }

  /** Reading back keeps the order of expiries. */
  lemma RereadKeepsOrder(a: SuppressionEntry, b: SuppressionEntry, zone: Offset)
    requires KeyNotAfter(a.suppressUntil, b.suppressUntil)
    ensures KeyNotAfter(Reread(a, zone).suppressUntil, Reread(b, zone).suppressUntil)
  {
    if a.suppressUntil.Some? {
      TruncatedToDayMonotone(WithZoneSameInstant(a.suppressUntil.value, zone), WithZoneSameInstant(b.suppressUntil.value, zone));
    }
  }

  lemma EntriesTextOfRereads(s: seq<SuppressionEntry>, zone: Offset)
    ensures EntriesText(Rereads(s, zone), zone) == EntriesText(s, zone)
  {
    forall i | 0 <= i < |s| ensures XmlTag(Rereads(s, zone)[i], zone) == XmlTag(s[i], zone) {
      XmlTagOfReread(s[i], zone);
    }
    assert TagLines(Rereads(s, zone), zone) == TagLines(s, zone);
  }

  /** Writing the entries read back from a written file writes the same text again. */
  lemma FileTextOfRereads(entries: seq<SuppressionEntry>, zone: Offset)
    ensures FileText(Rereads(SortByUntil(entries), zone), zone) == FileText(entries, zone)
  {
    var s := SortByUntil(entries);
    var r := Rereads(s, zone);
    SortSorted(entries);
    forall i | 0 < i < |r| ensures KeyNotAfter(r[i - 1].suppressUntil, r[i].suppressUntil) {
      RereadKeepsOrder(s[i - 1], s[i], zone);
    }
    SortOfSorted(r);
    EntriesTextOfRereads(s, zone);
  }
}
