/** Ported-issue resolution of the current generator: an issue that was ported
    from another one (it carries a port label and its body names the original)
    credits the original's author. A rule is a label and a pattern over the
    body; the pattern engine and the single-issue lookup are parameters. */
module Porting {
  import opened Wrappers
  import opened Payload

  /** A PortedIssue rule: its label and its body pattern. */
  datatype PortRule = PortRule(labelName: string, bodyPattern: string)

  datatype PortError =
    | NullBody(number: string)  // a port-labelled issue without a body: the matcher throws
    | ChainTooLong              // the chain of ports outran the fuel

  /** What the rule at `k` does for `issue`: fail on a missing body, or give
      the referenced issue when the label is present, the body fully matches
      and the lookup finds the captured number. */
  function RuleStep(rules: seq<PortRule>, k: nat, issue: Issue,
                    matcher: (string, string) -> Option<string>,
                    lookup: string -> Option<Issue>): Result<Option<Issue>, PortError>
    requires k < |rules|
  {
    if !HasLabelNamed(issue, rules[k].labelName) then Success(None)
    else if issue.body.None? then Failure(NullBody(issue.number))
    else match matcher(rules[k].bodyPattern, issue.body.value)
      case None => Success(None)
      case Some(number) => Success(lookup(number))
  }

  /** The loop over the rules from `k`: the first rule that leads somewhere. */
  function StepFrom(rules: seq<PortRule>, k: nat, issue: Issue,
                    matcher: (string, string) -> Option<string>,
                    lookup: string -> Option<Issue>): (r: Result<Option<Issue>, PortError>)
    requires k <= |rules|
    ensures r == Success(None) <==> forall j :: k <= j < |rules| ==> RuleStep(rules, j, issue, matcher, lookup) == Success(None)
    ensures r.Success? && r.value.Some? ==>
              exists j :: k <= j < |rules| && RuleStep(rules, j, issue, matcher, lookup) == r
                          && forall i :: k <= i < j ==> RuleStep(rules, i, issue, matcher, lookup) == Success(None)
    decreases |rules| - k
  {
    if k == |rules| then Success(None)
    else
      var here := RuleStep(rules, k, issue, matcher, lookup);
      if here == Success(None) then StepFrom(rules, k + 1, issue, matcher, lookup) else here
  }

  /** One step of the chain: where the issue is ported from, if anywhere. */
  function Step(rules: seq<PortRule>, issue: Issue,
                matcher: (string, string) -> Option<string>,
                lookup: string -> Option<Issue>): Result<Option<Issue>, PortError> {
    StepFrom(rules, 0, issue, matcher, lookup)
  }

  /** getPortedReferenceIssue: follows the chain of ports to the issue where
      it ends. Each rule that fires hands over to the referenced issue; the
      fuel bounds a chain that, as in the source, nothing keeps from cycling. */
  function Resolve(rules: seq<PortRule>, issue: Issue,
                   matcher: (string, string) -> Option<string>,
                   lookup: string -> Option<Issue>, fuel: nat): (r: Result<Issue, PortError>)
    ensures r.Success? ==> Step(rules, r.value, matcher, lookup) == Success(None)
    ensures Step(rules, issue, matcher, lookup) == Success(None) ==> r == Success(issue)
    ensures Step(rules, issue, matcher, lookup).Failure? ==> r == Failure(Step(rules, issue, matcher, lookup).error)
    decreases fuel
  {
    match Step(rules, issue, matcher, lookup)
    case Failure(e) => Failure(e)
    case Success(None) => Success(issue)
    case Success(Some(referenced)) =>
      if fuel == 0 then Failure(ChainTooLong)
      else Resolve(rules, referenced, matcher, lookup, fuel - 1)
  }

  /** An issue carrying none of the rules' labels is its own reference. */
  lemma UnlabelledIsItself(rules: seq<PortRule>, issue: Issue,
                           matcher: (string, string) -> Option<string>,
                           lookup: string -> Option<Issue>, fuel: nat)
    requires forall k :: 0 <= k < |rules| ==> !HasLabelNamed(issue, rules[k].labelName)
    ensures Resolve(rules, issue, matcher, lookup, fuel) == Success(issue)
  {
    assert forall k :: 0 <= k < |rules| ==> RuleStep(rules, k, issue, matcher, lookup) == Success(None);
  }

  /** When one step finds a referenced issue, resolution goes on from that
      issue with one unit of fuel less: resolution is the chain of steps.
      Which rule fires within a step is stated by `StepFrom`. */
  lemma {:induction false} ResolveFollowsSteps(rules: seq<PortRule>, issue: Issue, referenced: Issue,
                                               matcher: (string, string) -> Option<string>,
                                               lookup: string -> Option<Issue>, fuel: nat)
    requires Step(rules, issue, matcher, lookup) == Success(Some(referenced))
    ensures Resolve(rules, issue, matcher, lookup, fuel + 1) == Resolve(rules, referenced, matcher, lookup, fuel)
  {
  }

  /** More fuel never changes a completed resolution. */
  lemma {:induction false} ResolveMoreFuel(rules: seq<PortRule>, issue: Issue,
                                           matcher: (string, string) -> Option<string>,
                                           lookup: string -> Option<Issue>, fuel: nat, more: nat)
    requires Resolve(rules, issue, matcher, lookup, fuel).Success? && fuel <= more
    ensures Resolve(rules, issue, matcher, lookup, more) == Resolve(rules, issue, matcher, lookup, fuel)
    decreases fuel
  {
    match Step(rules, issue, matcher, lookup)
    case Failure(_) =>
    case Success(None) =>
    case Success(Some(referenced)) =>
      ResolveMoreFuel(rules, referenced, matcher, lookup, fuel - 1, more - 1);
  }

  /** Two issues that port each other never resolve: the source would recurse
      without end, the model runs out of fuel. */
  lemma PortCycleDoesNotResolve(rules: seq<PortRule>, a: Issue, b: Issue,
                                matcher: (string, string) -> Option<string>,
                                lookup: string -> Option<Issue>, fuel: nat)
    requires Step(rules, a, matcher, lookup) == Success(Some(b))
    requires Step(rules, b, matcher, lookup) == Success(Some(a))
    ensures Resolve(rules, a, matcher, lookup, fuel) == Failure(ChainTooLong)
    decreases fuel
  {
    if fuel > 0 {
      PortCycleDoesNotResolve(rules, b, a, matcher, lookup, fuel - 1);
    }
  }
}
