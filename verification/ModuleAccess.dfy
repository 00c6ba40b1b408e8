/** Access to a service through the gateway (`AllowLogicModuleGroup`). */
module ModuleAccess {
  import opened Texts
  import opened Permissions

  datatype Decision = Allowed | Denied | ServiceDoesNotExist

  /** The groups that say something about a user of this organization. */
  ghost predicate Concerns(g: Group, organization: Option<nat>) {
    g.isGlobal || (g.isOrgLevel && g.organization == organization)
  }

  /** The filter of the code. */
  predicate Applies(g: Group, organization: Option<nat>) {
    g.isGlobal || (g.organization == organization && !g.isGlobal && g.isOrgLevel)
  }

  function Applicable(groups: seq<Group>, organization: Option<nat>): (r: seq<Group>)
    ensures forall g :: g in r <==> g in groups && Concerns(g, organization)
  {
    if groups == [] then []
    else
      var rest := Applicable(groups[..|groups| - 1], organization);
      assert groups == groups[..|groups| - 1] + [groups[|groups| - 1]];
      if Applies(groups[|groups| - 1], organization) then rest + [groups[|groups| - 1]] else rest
  }

  /** The rule a reader expects: no group applies, or some applicable group grants the method. */
  ghost predicate SomeGroupGrants(groups: seq<Group>, organization: Option<nat>, name: string) {
    (forall g :: g in groups ==> !Concerns(g, organization)) ||
    exists g :: g in groups && Concerns(g, organization) && Grants(g, name)
  }

  /** `AllowLogicModuleGroup.has_permission`; `moduleGroups` are the groups of the logic module,
      `None` when there is no such module. */
  method CheckModule(user: User, name: string, moduleGroups: Option<seq<Group>>) returns (d: Decision)
    ensures user.isAnonymous ==> d == Denied
    ensures !user.isAnonymous && user.isSuperuser ==> d == Allowed
    ensures !user.isAnonymous && !user.isSuperuser ==>
      match moduleGroups
      case None => d == ServiceDoesNotExist
      case Some(groups) => d == if SomeGroupGrants(groups, user.organization, name) then Allowed else Denied
  {
    if user.isAnonymous {
      return Denied;
    }
    if user.isSuperuser {
      return Allowed;
    }
    if moduleGroups.None? {
      return ServiceDoesNotExist;
    }
    var groups := Applicable(moduleGroups.value, user.organization);
    if groups == [] {
      assert forall g :: g in moduleGroups.value && Concerns(g, user.organization) ==> g in groups;
      return Allowed;
    }
    assert groups[0] in groups;
    var globalPermissions, orgPermissions := Display(NO_ACCESS), Display(NO_ACCESS);
    for i := 0 to |groups|
      invariant IsBits(globalPermissions) && IsBits(orgPermissions)
      invariant HasPermission(globalPermissions, name) <==>
        exists j :: 0 <= j < i && groups[j].isGlobal && Grants(groups[j], name)
      invariant HasPermission(orgPermissions, name) <==>
        exists j :: 0 <= j < i && !groups[j].isGlobal && Grants(groups[j], name)
    {
      var group := groups[i];
      assert group in groups;
      if group.isGlobal {
        globalPermissions := Merge(globalPermissions, Display(group.permissions));
      } else if group.isOrgLevel {
        orgPermissions := Merge(orgPermissions, Display(group.permissions));
      }
    }
    if HasPermission(globalPermissions, name) || HasPermission(orgPermissions, name) {
      var j :| 0 <= j < |groups| && Grants(groups[j], name);
      assert groups[j] in groups;
      return Allowed;
    }
    return Denied;
  }

  /** Neither the order of the groups nor repetitions matter. */
  lemma OrderAndDuplicatesIrrelevant(a: seq<Group>, b: seq<Group>, organization: Option<nat>, name: string)
    requires forall g :: g in a <==> g in b
    ensures SomeGroupGrants(a, organization, name) <==> SomeGroupGrants(b, organization, name)
  {
  }

  /** A further group takes access away in exactly one case: it is the first that applies, and it
      does not grant the method. */
  lemma FurtherGroupExactly(groups: seq<Group>, g: Group, organization: Option<nat>, name: string)
    ensures SomeGroupGrants(groups, organization, name) && !SomeGroupGrants([g] + groups, organization, name) <==>
      (forall h :: h in groups ==> !Concerns(h, organization)) && Concerns(g, organization) && !Grants(g, name)
  {
    assert forall h :: h in [g] + groups <==> h == g || h in groups;
    assert g in [g] + groups;
    if h :| h in groups && Concerns(h, organization) && Grants(h, name) {
      assert h in [g] + groups;
    }
  }
}
