/** The issue types of the `releasenotesgenerator` generation and their
    classification from an issue's labels. */
module IssueTypes {
  import opened Wrappers
  import opened Strings

  /** In declaration order, which is also the order of the changelog. */
  datatype Type = Enhancement | Bug | Documentation | DependencyUpgrades

  const AllTypes: seq<Type> := [Enhancement, Bug, Documentation, DependencyUpgrades]

  function Description(t: Type): string {
    match t
    case Enhancement => "New Features"
    case Bug => "Bug fixes"
    case Documentation => "Documentation"
    case DependencyUpgrades => "Dependency upgrades"
  }

  function Emoji(t: Type): string {
    match t
    case Enhancement => ":star:"
    case Bug => ":beetle:"
    case Documentation => ":notebook_with_decorative_cover:"
    case DependencyUpgrades => ":hammer:"
  }

  /** Position in declaration order, the order Comparator.comparing uses. */
  function Ordinal(t: Type): (r: nat)
    ensures r < |AllTypes| && AllTypes[r] == t
    ensures forall j :: 0 <= j < |AllTypes| && AllTypes[j] == t ==> j == r
  {
    match t
    case Enhancement => 0
    case Bug => 1
    case Documentation => 2
    case DependencyUpgrades => 3
  }

  /** The type one label names, by the priority of the checks: bug or
      regression, then enhancement, documentation, dependency-upgrade. */
  function TypeOfLabel(name: string): (r: Option<Type>)
    ensures r == Some(Bug) <==> Contains(name, "bug") || Contains(name, "regression")
    ensures r == Some(Enhancement) <==> !Contains(name, "bug") && !Contains(name, "regression") && Contains(name, "enhancement")
    ensures r == Some(Documentation) <==> (!Contains(name, "bug") && !Contains(name, "regression")
                                           && !Contains(name, "enhancement") && Contains(name, "documentation"))
    ensures r == Some(DependencyUpgrades) <==> (!Contains(name, "bug") && !Contains(name, "regression")
                                                && !Contains(name, "enhancement") && !Contains(name, "documentation")
                                                && Contains(name, "dependency-upgrade"))
  {
    if Contains(name, "bug") || Contains(name, "regression") then Some(Bug)
    else if Contains(name, "enhancement") then Some(Enhancement)
    else if Contains(name, "documentation") then Some(Documentation)
    else if Contains(name, "dependency-upgrade") then Some(DependencyUpgrades)
    else None
  }

  /** Type.fromLabels: the first label, in label order, that names a type
      decides; an issue with no such label has no type. */
  function FromLabels(labels: seq<string>): (r: Option<Type>)
    ensures r.None? <==> forall i :: 0 <= i < |labels| ==> TypeOfLabel(labels[i]).None?
    ensures r.Some? ==> exists i :: 0 <= i < |labels| && TypeOfLabel(labels[i]) == r
                                   && forall j :: 0 <= j < i ==> TypeOfLabel(labels[j]).None?
  {
    if |labels| == 0 then None
    else if TypeOfLabel(labels[0]).Some? then TypeOfLabel(labels[0])
    else
      var r := FromLabels(labels[1..]);
      assert forall i :: 1 <= i < |labels| ==> labels[i] == labels[1..][i - 1];
      r
  }

  /** Labels after the deciding one do not matter. */
  lemma LaterLabelsIgnored(labels: seq<string>, more: seq<string>)
    requires FromLabels(labels).Some?
    ensures FromLabels(labels + more) == FromLabels(labels)
  {
    var i :| 0 <= i < |labels| && TypeOfLabel(labels[i]) == FromLabels(labels)
             && forall j :: 0 <= j < i ==> TypeOfLabel(labels[j]).None?;
    var all := labels + more;
    assert TypeOfLabel(all[i]) == FromLabels(labels);
    assert FromLabels(all).Some?;
    var k :| 0 <= k < |all| && TypeOfLabel(all[k]) == FromLabels(all)
             && forall j :: 0 <= j < k ==> TypeOfLabel(all[j]).None?;
    assert k == i;
  }

  /** "type: regression" is a bug: matching is by substring. */
  lemma RegressionLabelIsBug()
    ensures FromLabels(["type: regression"]) == Some(Bug)
  {
    var name := "type: regression";
    assert name[6..6 + |"regression"|] == "regression";
    assert OccursAt(name, "regression", 6);
  }
}
