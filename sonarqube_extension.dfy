/**
 * `SonarqubeExtension`: the `sonarQube` settings of a project (`skip` and the server `edition`)
 * and the `afterEvaluate` rule that skips the analysis of pull-request builds on a Community
 * Edition server, then hands the decision to the Sonar plugin as `isSkipProject`.
 */
module SonarqubeExtension {
  import opened Wrappers
  import opened Strings
  import opened SonarQubeEdition

  /** The project property that names the edition (`-Psonarqube.edition=…`). */
  const EditionProperty: string := "sonarqube.edition"

  /** The `BUILD_REASON` of a pull-request build. */
  const PullRequest: string := "PullRequest"

  /** `project.properties[name].toString()`: the text `null` when the property is absent. */
  function PropertyText(properties: map<string, string>, name: string): (r: string)
    ensures name in properties ==> r == properties[name]
    ensures name !in properties ==> r == "null"
  {
    if name in properties then properties[name] else "null"
  }

  /** The convention of `edition`: the edition the property names, ignoring case, or `UNKNOWN`
      when it names none or is absent. */
  function DefaultEdition(properties: map<string, string>): (r: Edition)
    ensures EditionProperty in properties && Of(Some(properties[EditionProperty])).Some? ==>
      Named(r, properties[EditionProperty])
  {
    Of(Some(PropertyText(properties, EditionProperty))).GetOr(UNKNOWN)
  }

  /** The property selects exactly the edition it names; a property that names no edition, and
      no property at all, give `UNKNOWN`. */
  lemma DefaultEditionNamed(properties: map<string, string>, e: Edition)
    ensures EditionProperty in properties && Named(e, properties[EditionProperty]) ==>
      DefaultEdition(properties) == e
    ensures EditionProperty in properties && (forall f :: !Named(f, properties[EditionProperty])) ==>
      DefaultEdition(properties) == UNKNOWN
    ensures EditionProperty !in properties ==> DefaultEdition(properties) == UNKNOWN
  {
    if EditionProperty in properties {
      OfIff(properties[EditionProperty], e);
      if forall f :: !Named(f, properties[EditionProperty]) {
        var r := Of(Some(properties[EditionProperty]));
        if r.Some? {
          assert Named(r.value, properties[EditionProperty]);
        }
      }
    } else {
      var t := PropertyText(properties, EditionProperty);
      assert |t| == 4;
      forall f ensures !Named(f, t) {
        ValuesComplete(f, f);
      }
    }
  }

  /** The `skip` value after `afterEvaluate`: a skipped analysis stays skipped, and one that is
      not is skipped for a pull-request build on a Community Edition server. */
  function SkipAfterEvaluate(skip: bool, edition: Edition, buildReason: Option<string>): bool {
    skip || (edition == COMMUNITY && buildReason == Some(PullRequest))
  }

  /** The rule only ever turns skipping on, and applying it twice decides as applying it once. */
  lemma SkipAfterEvaluateStable(skip: bool, edition: Edition, buildReason: Option<string>)
    ensures skip ==> SkipAfterEvaluate(skip, edition, buildReason)
    ensures SkipAfterEvaluate(SkipAfterEvaluate(skip, edition, buildReason), edition, buildReason)
      == SkipAfterEvaluate(skip, edition, buildReason)
  {
  }

  /** An analysis that is not skipped becomes skipped exactly for a pull-request build on a
      Community Edition server, which is what `-Psonarqube.edition=community` (in any letter
      case) declares. */
  lemma CommunityPullRequestSkipped(properties: map<string, string>, buildReason: Option<string>)
    ensures SkipAfterEvaluate(false, DefaultEdition(properties), buildReason) <==>
      DefaultEdition(properties) == COMMUNITY && buildReason == Some(PullRequest)
    ensures EditionProperty in properties && Named(COMMUNITY, properties[EditionProperty]) ==>
      (SkipAfterEvaluate(false, DefaultEdition(properties), buildReason) <==> buildReason == Some(PullRequest))
  {
    DefaultEditionNamed(properties, COMMUNITY);
  }

  /** What `afterEvaluate` logs. */
  datatype Warning =
    | Disabled               // skipping was configured
    | CommunityPullRequest   // skipping because of the server edition and the build reason

  /** The Sonar plugin's `sonar` extension, as far as the rule sets it. */
  class SonarExtension {
    var isSkipProject: bool

    constructor ()
      ensures !isSkipProject
    {
      isSkipProject := false;
    }
  }

  class SonarqubeExtension {
    var skip: bool
    var edition: Edition

    /** The extension as created: `skip` defaults to `false`, `edition` to its convention. */
    constructor (properties: map<string, string>)
      ensures !skip && edition == DefaultEdition(properties)
    {
      skip := false;
      edition := DefaultEdition(properties);
    }

    /** The `afterEvaluate` block; `buildReason` is the `BUILD_REASON` environment variable. */
    method AfterEvaluate(sonar: SonarExtension, buildReason: Option<string>) returns (warnings: seq<Warning>)
      modifies this, sonar
      ensures skip == SkipAfterEvaluate(old(skip), edition, buildReason)
      ensures edition == old(edition)
      ensures sonar.isSkipProject == skip
      ensures warnings == if old(skip) then [Disabled]
        else if skip then [CommunityPullRequest]
        else []
    {
      if skip {
        warnings := [Disabled];
      } else if edition == COMMUNITY && buildReason == Some(PullRequest) {
        warnings := [CommunityPullRequest];
        skip := true;
      } else {
        warnings := [];
      }
      sonar.isSkipProject := skip;
    }
  }
}
