/**
 * The deployment gate: before a bundle stage runs, the action refuses a deployment from a branch
 * that is not protected and refuses a bundle configuration that declares resource kinds the
 * platform team manages centrally.
 */
module Validate {
  import opened Wrappers

  /** Resource kinds a bundle may not declare. */
  const ResourcesBlacklist: set<string> := {"clusters", "schemas"}

  /** The bundle stages the action runs. */
  datatype Stage = Deploy | Plan | Run | Summary {
    /** The command-line spelling of the stage. */
    function Value(): (s: string)
      ensures |s| > 0
    {
      match this
      case Deploy => "deploy"
      case Plan => "plan"
      case Run => "run"
      case Summary => "summary"
    }
  }

  /** The `choices` of the `--stage` argument: every stage's value, in declaration order. */
  function StageChoices(): (choices: seq<string>)
    ensures |choices| == 4
    ensures forall st: Stage :: st.Value() in choices
  {
    [Deploy.Value(), Plan.Value(), Run.Value(), Summary.Value()]
  }

  /** The stage a `--stage` value names, if it is one of the choices. */
  function ParseStage(s: string): (r: Option<Stage>)
    ensures r.Some? <==> s in StageChoices()
    ensures r.Some? ==> r.value.Value() == s
  {
    if s == "deploy" then Some(Deploy)
    else if s == "plan" then Some(Plan)
    else if s == "run" then Some(Run)
    else if s == "summary" then Some(Summary)
    else None
  }

  /** Distinct stages have distinct values, so a stage is recovered from its value. */
  lemma StageRoundTrip(st: Stage)
    ensures ParseStage(st.Value()) == Some(st)
  {
  }

  /** The value the YAML document holds under `resources`, as far as the gate looks at it: a
      mapping (only its string keys matter) or anything else (a list, a scalar, an empty value). */
  datatype Node = Mapping(keys: set<string>) | NonMapping

  /** How `validate` ends: it returns, or raises one of these errors. */
  datatype Verdict = Passed | PermissionErr | KeyErr | ValueErr | AttributeErr

  /** The deployment part of the gate lets the stage through. */
  predicate BranchAllowed(stage: string, refProtected: Option<string>) {
    stage != Deploy.Value() || refProtected == Some("true")
  }

  /** The resource kinds the configuration declares that the blacklist forbids; `None` when its
      `resources` value has no keys to intersect with. */
  function ForbiddenKinds(config: map<string, Node>): (r: Option<set<string>>)
    ensures r.None? <==> "resources" in config && config["resources"].NonMapping?
    ensures r.Some? ==> r.value <= ResourcesBlacklist
    ensures r.Some? ==> forall k :: k in r.value <==>
              k in ResourcesBlacklist && "resources" in config && k in config["resources"].keys
  {
    var resources := if "resources" in config then config["resources"] else Mapping({});
    match resources
    case Mapping(keys) => Some(ResourcesBlacklist * keys)
    case NonMapping => None
  }

  /** `validate(stage, config)`, with `refProtected` the value of `GITHUB_REF_PROTECTED` in the
      environment (`None` when it is unset). The branch check runs first and reads the
      environment only for the deploy stage; the resource check runs second. */
  function Validate(stage: string, refProtected: Option<string>, config: map<string, Node>): (r: Verdict)
    ensures r == KeyErr <==> stage == "deploy" && refProtected.None?
    ensures r == PermissionErr <==> stage == "deploy" && refProtected.Some? && refProtected.value != "true"
    ensures r == AttributeErr <==>
              BranchAllowed(stage, refProtected) && "resources" in config && config["resources"].NonMapping?
    ensures r == ValueErr <==>
              BranchAllowed(stage, refProtected) && "resources" in config &&
              config["resources"].Mapping? && config["resources"].keys * ResourcesBlacklist != {}
    ensures r == Passed <==>
              BranchAllowed(stage, refProtected) &&
              ("resources" !in config || (config["resources"].Mapping? && config["resources"].keys * ResourcesBlacklist == {}))
  {
    if stage == Deploy.Value() && refProtected.None? then KeyErr
    else if stage == Deploy.Value() && refProtected.value != "true" then PermissionErr
    else
      var forbidden := ForbiddenKinds(config);
      if forbidden.None? then AttributeErr
      else if |forbidden.value| > 0 then ValueErr
      else Passed
  }

  /** A stage other than deploy never looks at the environment. */
  lemma NonDeployIgnoresEnvironment(stage: string, env1: Option<string>, env2: Option<string>, config: map<string, Node>)
    requires stage != Deploy.Value()
    ensures Validate(stage, env1, config) == Validate(stage, env2, config)
  {
  }

  /** A refused branch is reported whatever the configuration declares. */
  lemma BranchCheckFirst(refProtected: string, config: map<string, Node>)
    requires refProtected != "true"
    ensures Validate("deploy", Some(refProtected), config) == PermissionErr
  {
  }

  /** On a branch the gate lets through, a `resources` mapping declaring the single kind `kind`
      is refused exactly when that kind is "clusters" or "schemas". */
  lemma BlacklistedKinds(stage: string, refProtected: Option<string>, kind: string)
    requires BranchAllowed(stage, refProtected)
    ensures Validate(stage, refProtected, map["resources" := Mapping({kind})]) == ValueErr <==>
              kind == "clusters" || kind == "schemas"
  {
    if kind != "clusters" && kind != "schemas" {
      assert {kind} * ResourcesBlacklist == {};
    } else {
      assert kind in {kind} * ResourcesBlacklist;
    }
  }

  /** A configuration without `resources` declares nothing forbidden. */
  lemma MissingResourcesDeclareNothing(config: map<string, Node>)
    requires "resources" !in config
    ensures ForbiddenKinds(config) == Some({})
  {
    assert ResourcesBlacklist * {} == {};
  }
}
