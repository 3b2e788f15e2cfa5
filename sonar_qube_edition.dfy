/**
 * `io.github.woolph.gradle.SonarQubeEdition`: the edition of the SonarQube server a build talks
 * to, and `of`, its case-insensitive lookup by name.
 */
module SonarQubeEdition {
  import opened Wrappers
  import opened Strings
  import opened Sequences

  datatype Edition = UNKNOWN | COMMUNITY | DEVELOPER | ENTERPRISE

  /** `values()`, in declaration order. */
  const Values: seq<Edition> := [UNKNOWN, COMMUNITY, DEVELOPER, ENTERPRISE]

  /** `name`: the constant's identifier. */
  function Name(e: Edition): (r: string)
    ensures CapitalLetters(r)
  {
    match e
    case UNKNOWN => "UNKNOWN"
    case COMMUNITY => "COMMUNITY"
    case DEVELOPER => "DEVELOPER"
    case ENTERPRISE => "ENTERPRISE"
  }

  /** Every constant is among the values, and the names are distinct. */
  lemma ValuesComplete(e: Edition, f: Edition)
    ensures e in Values
    ensures Name(e) == Name(f) ==> e == f
  {
  }

  /** The name of `e` equals `s` ignoring case. */
  predicate Named(e: Edition, s: string) {
    EqualsIgnoreCase(Name(e), s)
  }

  /** `of(string)`: the first value whose name equals the text ignoring case; `null` for a
      `null` text, since a name never equals `null`. */
  function Of(s: Option<string>): (r: Option<Edition>)
    ensures s.None? ==> r.None?
    ensures r.Some? ==> s.Some? && Named(r.value, s.value)
    ensures r.None? && s.Some? ==> forall e :: !Named(e, s.value)
  {
    if s.None? then None
    else
      match FirstIndex(Values, (e: Edition) => Named(e, s.value))
      case None =>
        forall e ensures !Named(e, s.value) {
          ValuesComplete(e, e);
        }
        None
      case Some(i) => Some(Values[i])
  }

  /** At most one constant matches a text, so the first match is the only one: `of` gives
      exactly the constant whose name equals the text ignoring case. */
  lemma OfIff(s: string, e: Edition)
    ensures Of(Some(s)) == Some(e) <==> Named(e, s)
  {
    if Named(e, s) {
      var r := Of(Some(s));
      assert r.Some?;
      EqualsIgnoreCaseUnique(Name(r.value), Name(e), s);
      ValuesComplete(r.value, e);
    }
  }

  /** `of(e.name) == e`. */
  lemma OfName(e: Edition)
    ensures Of(Some(Name(e))) == Some(e)
  {
    OfIff(Name(e), e);
  }

  /** `of(e.name.lowercase()) == e`. */
  lemma OfLowerCase(e: Edition)
    ensures Of(Some(ToLowerCase(Name(e)))) == Some(e)
  {
    EqualsIgnoreCaseLower(Name(e));
    OfIff(ToLowerCase(Name(e)), e);
  }
}
