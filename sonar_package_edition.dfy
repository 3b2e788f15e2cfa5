/**
 * `io.github.woolph.gradle.sonar.SonarQubeEdition`: a second declaration of the edition enum,
 * in the `sonar` package, with the same constants and the same `of` lookup.
 */
module SonarPackageEdition {
  import opened Wrappers
  import opened Strings
  import opened Sequences
  import SonarQubeEdition

  datatype Edition = UNKNOWN | COMMUNITY | DEVELOPER | ENTERPRISE

  /** `values()`, in declaration order. */
  const Values: seq<Edition> := [UNKNOWN, COMMUNITY, DEVELOPER, ENTERPRISE]

  /** `name`: the constant's identifier. */
  function Name(e: Edition): (r: string)
    ensures CapitalLetters(r)
  {
    match e
    case UNKNOWN => "UNKNOWN"
    case COMMUNITY => "COMMUNITY"
    case DEVELOPER => "DEVELOPER"
    case ENTERPRISE => "ENTERPRISE"
  }

  /** Every constant is among the values, and the names are distinct. */
  lemma ValuesComplete(e: Edition, f: Edition)
    ensures e in Values
    ensures Name(e) == Name(f) ==> e == f
  {
  }

  /** `of(string)`: the first value whose name equals the text ignoring case, `null` if none. */
  function Of(s: Option<string>): (r: Option<Edition>)
    ensures s.None? ==> r.None?
    ensures r.Some? ==> s.Some? && EqualsIgnoreCase(Name(r.value), s.value)
    ensures r.None? && s.Some? ==> forall e :: !EqualsIgnoreCase(Name(e), s.value)
  {
    if s.None? then None
    else
      match FirstIndex(Values, (e: Edition) => EqualsIgnoreCase(Name(e), s.value))
      case None =>
        forall e ensures !EqualsIgnoreCase(Name(e), s.value) {
          ValuesComplete(e, e);
        }
        None
      case Some(i) => Some(Values[i])
  }

  /** The constant of the other declaration with the same name. */
  function FromEdition(e: SonarQubeEdition.Edition): (r: Edition)
    ensures Name(r) == SonarQubeEdition.Name(e)
  {
    match e
    case UNKNOWN => UNKNOWN
    case COMMUNITY => COMMUNITY
    case DEVELOPER => DEVELOPER
    case ENTERPRISE => ENTERPRISE
  }

  /** The two declarations agree: on every text, `of` finds the same-named constant in both or
      in neither; in particular `of(e.name) == e` in any letter case here as well. */
  lemma OfAgrees(s: Option<string>)
    ensures Of(s) == (match SonarQubeEdition.Of(s)
                      case None => None
                      case Some(e) => Some(FromEdition(e)))
  {
    if s.Some? {
      var t := s.value;
      match SonarQubeEdition.Of(s)
      case None =>
      case Some(e) =>
        var r := Of(s);
        assert EqualsIgnoreCase(Name(FromEdition(e)), t);
        EqualsIgnoreCaseUnique(Name(r.value), Name(FromEdition(e)), t);
        ValuesComplete(r.value, FromEdition(e));
    }
  }
}
