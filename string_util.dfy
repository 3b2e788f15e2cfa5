/**
 * `String.toModuleString()`: a Maven package URL `pkg:maven/<group>/<name>@<version>` as the
 * module string `<group>:<name>:<version>`, by a whole-string match of
 * `^pkg:maven/(?<group>.*)/(?<name>.*)@(?<version>.*)$`.
 */
module StringUtil {
  import opened Wrappers
  import opened Strings

  const MavenPrefix: string := "pkg:maven/"

  /** The position of the last `c` in `s`, if any. */
  function LastIndexOf(s: string, c: char): (r: Option<nat>)
    ensures r.Some? ==> r.value < |s| && s[r.value] == c && forall j :: r.value < j < |s| ==> s[j] != c
    ensures r.None? ==> forall j :: 0 <= j < |s| ==> s[j] != c
  {
    if s == [] then None
    else if s[|s| - 1] == c then Some(|s| - 1)
    else LastIndexOf(s[..|s| - 1], c)
  }

  /** The last occurrence is the one with none after it. */
  lemma LastIndexOfAt(s: string, c: char, k: nat)
    requires k < |s| && s[k] == c && forall j :: k < j < |s| ==> s[j] != c
    ensures LastIndexOf(s, c) == Some(k)
  {
  }

  /**
   * The groups of a match of `(?<group>.*)/(?<name>.*)@(?<version>.*)` on the text after the
   * prefix. Each group is greedy, so the engine's first success is: the group up to the last
   * '/' that still has an '@' after it, the name up to the last '@', the version the rest.
   */
  function TailGroups(t: string): (r: Option<(string, string, string)>)
    ensures r.Some? ==> t == r.value.0 + "/" + r.value.1 + "@" + r.value.2
  {
    match LastIndexOf(t, '@')
    case None => None
    case Some(a) =>
      match LastIndexOf(t[..a], '/')
      case None => None
      case Some(p) =>
        assert t == t[..p] + "/" + t[p + 1..a] + "@" + t[a + 1..];
        Some((t[..p], t[p + 1..a], t[a + 1..]))
  }

  /** The groups of the whole-string match, if the text matches; `.` matches no line
      terminator, so there may be none after the prefix. */
  function MatchGroups(s: string): (r: Option<(string, string, string)>)
    ensures r.Some? ==> s == MavenPrefix + r.value.0 + "/" + r.value.1 + "@" + r.value.2
  {
    if |s| < |MavenPrefix| || s[..|MavenPrefix|] != MavenPrefix || !NoLineTerminator(s[|MavenPrefix|..]) then None
    else
      var r := TailGroups(s[|MavenPrefix|..]);
      if r.None? then None
      else
        assert s == s[..|MavenPrefix|] + s[|MavenPrefix|..];
        Associative4(MavenPrefix, r.value.0 + "/" + r.value.1, "@", r.value.2);
        r
  }

  /** `toModuleString()`: `null` when the text does not match. */
  function ToModuleString(s: string): Option<string> {
    match MatchGroups(s)
    case None => None
    case Some((group, name, version)) => Some(group + ":" + name + ":" + version)
  }

  /** A text has a module string exactly when it starts with the prefix, holds no line
      terminator after it, and has a '/' followed later by an '@' after it. */
  lemma ToModuleStringIff(s: string)
    ensures ToModuleString(s).Some? <==>
      && |s| >= |MavenPrefix| && s[..|MavenPrefix|] == MavenPrefix && NoLineTerminator(s[|MavenPrefix|..])
      && exists i, j :: |MavenPrefix| <= i < j < |s| && s[i] == '/' && s[j] == '@'
  {
    var n := |MavenPrefix|;
    if |s| >= n && s[..n] == MavenPrefix && NoLineTerminator(s[n..]) {
      if i, j :| n <= i < j < |s| && s[i] == '/' && s[j] == '@' {
        SeparatorsMatch(s[n..], i - n, j - n);
      }
      if ToModuleString(s).Some? {
        MatchSeparators(s);
      }
    }
  }

  /** A '/' followed by an '@' is enough for the match on the text after the prefix. */
  lemma SeparatorsMatch(t: string, i: nat, j: nat)
    requires i < j < |t| && t[i] == '/' && t[j] == '@'
    ensures TailGroups(t).Some?
  {
    var a := LastIndexOf(t, '@').value;
    assert t[..a][i] == '/';
  }

  /** A match has a '/' followed by an '@' after the prefix. */
  lemma MatchSeparators(s: string)
    requires |s| >= |MavenPrefix| && ToModuleString(s).Some?
    ensures exists i, j :: |MavenPrefix| <= i < j < |s| && s[i] == '/' && s[j] == '@'
  {
    var n := |MavenPrefix|;
    var t := s[n..];
    var a := LastIndexOf(t, '@').value;
    var p := LastIndexOf(t[..a], '/').value;
    assert s[n + p] == t[..a][p] && s[n + a] == t[a];
  }

  /** The parts of `x + [c] + y` around the `c` after `x`. */
  lemma SplitAround(x: string, c: char, y: string)
    ensures (x + [c] + y)[..|x|] == x && (x + [c] + y)[|x|] == c && (x + [c] + y)[|x| + 1..] == y
    ensures forall j :: |x| < j < |x| + 1 + |y| ==> (x + [c] + y)[j] == y[j - |x| - 1]
  {
  }

  /** When `y` holds no `c`, the last `c` of `x + [c] + y` is the one after `x`. */
  lemma LastIndexAround(x: string, c: char, y: string)
    requires Lacks(y, c)
    ensures LastIndexOf(x + [c] + y, c) == Some(|x|)
  {
    SplitAround(x, c, y);
    LastIndexOfAt(x + [c] + y, c, |x|);
  }

  lemma NoLineTerminatorAppend(a: string, b: string)
    requires NoLineTerminator(a) && NoLineTerminator(b)
    ensures NoLineTerminator(a + b)
  {
    assert forall k :: |a| <= k < |a + b| ==> (a + b)[k] == b[k - |a|];
  }

  /** The match on the text after the prefix splits at the separators between the parts. */
  lemma TailGroupsOfParts(group: string, name: string, version: string)
    requires Lacks(name, '/') && Lacks(version, '@')
    ensures TailGroups(group + "/" + name + "@" + version) == Some((group, name, version))
  {
    var u := group + ['/'] + name;
    var t := u + ['@'] + version;
    assert group + "/" + name + "@" + version == t;
    LastIndexAround(u, '@', version);
    SplitAround(u, '@', version);
    assert LastIndexOf(t, '@') == Some(|u|) && t[..|u|] == u;
    LastIndexAround(group, '/', name);
    SplitAround(group, '/', name);
    assert LastIndexOf(u, '/') == Some(|group|);
    var a := LastIndexOf(t, '@').value;
    assert a == |u|;
    assert t[..a] == u;
    var p := LastIndexOf(t[..a], '/').value;
    assert p == |group|;
    assert TailGroups(t) == Some((t[..p], t[p + 1..a], t[a + 1..]));
    assert t[..p] == group;
    assert t[p + 1..a] == name;
  }

  /** Package URLs built from a group, a name without '/' and a version without '@' give back
      those three parts; the group may hold any character but a line terminator. */
  lemma ToModuleStringOfParts(group: string, name: string, version: string)
    requires NoLineTerminator(group) && NoLineTerminator(name) && NoLineTerminator(version)
    requires Lacks(name, '/') && Lacks(version, '@')
    ensures ToModuleString(MavenPrefix + group + "/" + name + "@" + version) == Some(group + ":" + name + ":" + version)
  {
    var t := group + "/" + name + "@" + version;
    NoLineTerminatorAppend(group, "/");
    NoLineTerminatorAppend(group + "/", name);
    NoLineTerminatorAppend(group + "/" + name, "@");
    NoLineTerminatorAppend(group + "/" + name + "@", version);
    Associative4(MavenPrefix, group + "/" + name, "@", version);
    Associative(MavenPrefix, group, "/");
    assert MavenPrefix + group + "/" + name + "@" + version == MavenPrefix + t by {
      Associative4(MavenPrefix, group, "/", name);
    }
    assert (MavenPrefix + t)[..|MavenPrefix|] == MavenPrefix && (MavenPrefix + t)[|MavenPrefix|..] == t;
    TailGroupsOfParts(group, name, version);
  }
}
