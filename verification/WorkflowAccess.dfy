/** Workflow permissions (`CoreGroupsPermissions`). */
module WorkflowAccess {
  import opened Texts
  import opened Permissions

  // ---------- users ----------

  /** `CoreUser.is_global_admin`. */
  predicate IsGlobalAdmin(u: User) {
    u.isSuperuser || exists i :: 0 <= i < |u.groups| && u.groups[i].permissions == ADMIN && u.groups[i].isGlobal
  }

  /** `CoreUser.is_org_admin`. */
  predicate IsOrgAdmin(u: User) {
    exists i :: 0 <= i < |u.groups| && u.groups[i].permissions == ADMIN && u.groups[i].isOrgLevel
  }

  /** The workflow levels a request names: none, some that could not be resolved, or a list. */
  datatype Target = NotNamed | Unresolved | Levels(pks: seq<nat>)

  // ---------- the permission tables ----------

  /** Where a group's permissions count: for everything, for the organization, or on a level. */
  datatype Scope = Everywhere | Organization | OnLevel(level: nat)

  ghost predicate InScope(g: Group, scope: Scope) {
    match scope
    case Everywhere => g.isGlobal
    case Organization => !g.isGlobal && g.isOrgLevel
    case OnLevel(level) => !g.isGlobal && !g.isOrgLevel && level in g.levels
  }

  /** The groups that count in a scope. */
  ghost function Scoped(groups: seq<Group>, scope: Scope): (r: seq<Group>)
    ensures forall g :: g in r <==> g in groups && InScope(g, scope)
  {
    if groups == [] then []
    else
      var last := groups[|groups| - 1];
      assert groups == groups[..|groups| - 1] + [last];
      Scoped(groups[..|groups| - 1], scope) + if InScope(last, scope) then [last] else []
  }

  /** `0100` merged with the permissions of the groups that count in a scope. */
  ghost function Merged(groups: seq<Group>, scope: Scope): (p: string)
    ensures IsBits(p)
  {
    MergeGroups(Display(VIEW_ONLY), Scoped(groups, scope))
  }

  /** A `defaultdict` that gives `0100` for a missing key. */
  function Entry(table: map<nat, string>, level: nat): string {
    if level in table then table[level] else Display(VIEW_ONLY)
  }

  /** How a table entry grows with one more group. */
  lemma MergedStep(groups: seq<Group>, i: nat, scope: Scope)
    requires i < |groups|
    ensures InScope(groups[i], scope) ==>
      Merged(groups[..i + 1], scope) == Merge(Merged(groups[..i], scope), Display(groups[i].permissions))
    ensures !InScope(groups[i], scope) ==> Merged(groups[..i + 1], scope) == Merged(groups[..i], scope)
  {
    assert groups[..i + 1][..i] == groups[..i];
    var before := Scoped(groups[..i], scope);
    if InScope(groups[i], scope) {
      assert Scoped(groups[..i + 1], scope) == before + [groups[i]];
      MergeGroupsSnoc(before, groups[i]);
    } else {
      assert Scoped(groups[..i + 1], scope) == before;
    }
  }

  lemma MergeGroupsSnoc(groups: seq<Group>, g: Group)
    ensures MergeGroups(Display(VIEW_ONLY), groups + [g])
         == Merge(MergeGroups(Display(VIEW_ONLY), groups), Display(g.permissions))
  {
    assert (groups + [g])[..|groups|] == groups;
  }

  lemma MergeTwice(p: string, q: string)
    requires IsBits(p) && IsBits(q)
    ensures Merge(Merge(p, q), q) == Merge(p, q)
  {
  }

  /** One group's turn of the inner loop: its permissions are merged in for each of its levels. */
  method MergeLevels(table: map<nat, string>, group: Group) returns (r: map<nat, string>)
    requires forall k :: k in table ==> IsBits(table[k])
    ensures forall k :: k in r ==> IsBits(r[k])
    ensures forall k :: k in group.levels ==> Entry(r, k) == Merge(Entry(table, k), Display(group.permissions))
    ensures forall k :: k !in group.levels ==> Entry(r, k) == Entry(table, k)
  {
    r := table;
    var d := Display(group.permissions);
    for i := 0 to |group.levels|
      invariant forall k :: k in r ==> IsBits(r[k])
      invariant forall k :: Entry(r, k) == if k in group.levels[..i] then Merge(Entry(table, k), d) else Entry(table, k)
    {
      var level := group.levels[i];
      assert group.levels[..i + 1] == group.levels[..i] + [level];
      MergeTwice(Entry(table, level), d);
      r := r[level := Merge(Entry(r, level), d)];
    }
    assert group.levels[..|group.levels|] == group.levels;
  }

  /** The loop over the user's groups. Each table entry is the merge of `0100` and the permissions
      of exactly the groups that count for it. */
  method CollectPermissions(groups: seq<Group>)
      returns (globalPermissions: string, orgPermissions: string, levelPermissions: map<nat, string>)
    ensures globalPermissions == Merged(groups, Everywhere)
    ensures orgPermissions == Merged(groups, Organization)
    ensures forall k :: k in levelPermissions ==> IsBits(levelPermissions[k])
    ensures forall k :: Entry(levelPermissions, k) == Merged(groups, OnLevel(k))
    ensures forall name :: HasPermission(globalPermissions, name) <==>
      HasPermission("0100", name) || exists g :: g in groups && g.isGlobal && Grants(g, name)
    ensures forall name :: HasPermission(orgPermissions, name) <==>
      HasPermission("0100", name) || exists g :: g in groups && !g.isGlobal && g.isOrgLevel && Grants(g, name)
    ensures forall k, name :: HasPermission(Entry(levelPermissions, k), name) <==>
      HasPermission("0100", name) || exists g :: g in groups && CountsFor(g, k, name)
  {
    globalPermissions, orgPermissions, levelPermissions := Display(VIEW_ONLY), Display(VIEW_ONLY), map[];
    for i := 0 to |groups|
      invariant globalPermissions == Merged(groups[..i], Everywhere)
      invariant orgPermissions == Merged(groups[..i], Organization)
      invariant forall k :: k in levelPermissions ==> IsBits(levelPermissions[k])
      invariant forall k :: Entry(levelPermissions, k) == Merged(groups[..i], OnLevel(k))
    {
      var group := groups[i];
      MergedStep(groups, i, Everywhere);
      MergedStep(groups, i, Organization);
      forall k { MergedStep(groups, i, OnLevel(k)); }
      if group.isGlobal {
        globalPermissions := Merge(globalPermissions, Display(group.permissions));
      } else if group.isOrgLevel {
        orgPermissions := Merge(orgPermissions, Display(group.permissions));
      } else {
        levelPermissions := MergeLevels(levelPermissions, group);
      }
    }
    assert groups[..|groups|] == groups;
    MergedTells(groups);
  }

  /** A group that grants the action on one workflow level. */
  ghost predicate CountsFor(g: Group, level: nat, action: string) {
    !g.isGlobal && !g.isOrgLevel && level in g.levels && Grants(g, action)
  }

  lemma MergedGrants(groups: seq<Group>, scope: Scope, name: string)
    ensures HasPermission(Merged(groups, scope), name) <==>
      HasPermission("0100", name) || exists g :: g in groups && InScope(g, scope) && Grants(g, name)
  {
    assert Display(VIEW_ONLY) == "0100";
    MergeGroupsGrants(Display(VIEW_ONLY), Scoped(groups, scope), name);
  }

  lemma MergedTells(groups: seq<Group>)
    ensures forall name :: HasPermission(Merged(groups, Everywhere), name) <==>
      HasPermission("0100", name) || exists g :: g in groups && g.isGlobal && Grants(g, name)
    ensures forall name :: HasPermission(Merged(groups, Organization), name) <==>
      HasPermission("0100", name) || exists g :: g in groups && !g.isGlobal && g.isOrgLevel && Grants(g, name)
    ensures forall k, name {:trigger HasPermission(Merged(groups, OnLevel(k)), name)} ::
      HasPermission(Merged(groups, OnLevel(k)), name) <==>
      HasPermission("0100", name) || exists g :: g in groups && CountsFor(g, k, name)
  {
    forall name
      ensures HasPermission(Merged(groups, Everywhere), name) <==>
        HasPermission("0100", name) || exists g :: g in groups && g.isGlobal && Grants(g, name)
    {
      MergedGrants(groups, Everywhere, name);
    }
    forall name
      ensures HasPermission(Merged(groups, Organization), name) <==>
        HasPermission("0100", name) || exists g :: g in groups && !g.isGlobal && g.isOrgLevel && Grants(g, name)
    {
      MergedGrants(groups, Organization, name);
    }
    forall k, name {:trigger HasPermission(Merged(groups, OnLevel(k)), name)}
      ensures HasPermission(Merged(groups, OnLevel(k)), name) <==>
        HasPermission("0100", name) || exists g :: g in groups && CountsFor(g, k, name)
    {
      LevelGrants(groups, k, name);
    }
  }

  lemma LevelGrants(groups: seq<Group>, level: nat, name: string)
    ensures HasPermission(Merged(groups, OnLevel(level)), name) <==>
      HasPermission("0100", name) || exists g :: g in groups && CountsFor(g, level, name)
  {
    MergedGrants(groups, OnLevel(level), name);
  }

  // ---------- has_permission ----------

  /** `action in 'create'`: the test of the code is for a substring. */
  predicate WithinCreate(action: string) {
    exists i, j :: 0 <= i <= j <= 6 && action == "create"[i..j]
  }

  /** The test is passed by the texts that stand somewhere in the word. */
  lemma WithinCreateExactly(action: string)
    ensures WithinCreate(action) <==> exists before, after :: before + action + after == "create"
  {
    if WithinCreate(action) {
      var i, j :| 0 <= i <= j <= 6 && action == "create"[i..j];
      Sliced("create", i, j);
    }
    if before: string, after: string :| before + action + after == "create" {
      SliceOfJoin(before, action, after);
      assert |before + action + after| == 6;
    }
  }

  lemma Sliced(s: string, i: nat, j: nat)
    requires i <= j <= |s|
    ensures s[..i] + s[i..j] + s[j..] == s
  {
  }

  lemma SliceOfJoin(a: string, b: string, c: string)
    ensures (a + b + c)[|a|..|a| + |b|] == b
  {
  }

  /** The group counts for what is asked: everywhere, in the organization, or on a named level. */
  ghost predicate Reaches(g: Group, target: Target) {
    g.isGlobal || g.isOrgLevel || (target.Levels? && exists k :: k in target.pks && k in g.levels)
  }

  /** Who may do what, in the fields of the user and of the groups. */
  ghost predicate AllowedOn(u: User, action: string, target: Target) {
    !u.isAnonymous && u.isActive &&
    (u.isSuperuser || (exists g :: g in u.groups && g.isGlobal && g.permissions == 15) || !WithinCreate(action) ||
     exists g :: g in u.groups && Reaches(g, target) && Grants(g, action))
  }

  /** `CoreGroupsPermissions.has_permission` equals its declarative reading. */
  method CheckPermission(u: User, action: string, target: Target) returns (allowed: bool)
    ensures allowed <==> AllowedOn(u, action, target)
  {
    if u.isAnonymous || !u.isActive {
      return false;
    }
    if IsGlobalAdmin(u) {
      return true;
    }
    var globalPermissions, orgPermissions, levelPermissions := CollectPermissions(u.groups);
    ReadingIsNotCreating(action);
    if HasPermission(globalPermissions, action) {
      return true;
    }
    if HasPermission(orgPermissions, action) {
      return true;
    }
    if WithinCreate(action) {
      allowed := CheckLevels(u, levelPermissions, action, target);
      return;
    }
    return true;
  }

  /** What `0100` grants is not checked against levels. */
  lemma ReadingIsNotCreating(action: string)
    ensures HasPermission("0100", action) ==> !WithinCreate(action)
  {
    if HasPermission("0100", action) {
      OnlyCreateIsWithinCreate(action);
    }
  }

  /** The table grants an action on a level exactly when some group does. */
  ghost predicate TellsLevels(table: map<nat, string>, u: User, action: string) {
    (forall k :: k in table ==> IsBits(table[k])) &&
    forall k :: HasPermission(Entry(table, k), action) <==> exists g :: g in u.groups && CountsFor(g, k, action)
  }

  /** The part of `has_permission` that looks at the named workflow levels. */
  method CheckLevels(u: User, levelPermissions: map<nat, string>, action: string, target: Target)
      returns (allowed: bool)
    requires TellsLevels(levelPermissions, u, action)
    ensures allowed <==>
      target.Levels? && exists g, k :: g in u.groups && k in target.pks && CountsFor(g, k, action)
  {
    if !target.Levels? || target.pks == [] {
      return false;
    }
    for i := 0 to |target.pks|
      invariant forall g, k :: g in u.groups && k in target.pks[..i] ==> !CountsFor(g, k, action)
    {
      if HasPermission(Entry(levelPermissions, target.pks[i]), action) {
        assert target.pks[i] in target.pks;
        return true;
      }
      assert target.pks[..i + 1] == target.pks[..i] + [target.pks[i]];
    }
    assert target.pks[..|target.pks|] == target.pks;
    return false;
  }

  // ---------- has_object_permission ----------

  /** What the object is: a workflow level itself, something that belongs to one, or neither. */
  datatype Object = Level1 | UnderLevel(level: nat) | Other

  /** The code's choice of groups. */
  predicate Asked(g: Group, obj: Object) {
    match obj
    case Level1 => g.isOrgLevel
    case UnderLevel(level) => level in g.levels
    case Other => true
  }

  /** The user's groups that are asked about the object. */
  function ObjectGroups(groups: seq<Group>, obj: Object): (r: seq<Group>)
    ensures forall g :: g in r <==> g in groups && ConcernsObject(g, obj)
  {
    if groups == [] then []
    else
      var last := groups[|groups| - 1];
      assert groups == groups[..|groups| - 1] + [last];
      ObjectGroups(groups[..|groups| - 1], obj) + if Asked(last, obj) then [last] else []
  }

  /** The organization's groups for a level itself, the level's own for what is under it. */
  ghost predicate ConcernsObject(g: Group, obj: Object) {
    (obj.Level1? && g.isOrgLevel) || (obj.UnderLevel? && obj.level in g.levels) || obj.Other?
  }

  /** `CoreGroupsPermissions.has_object_permission`; `action` is `None` when the view has none. */
  method CheckObject(u: User, action: Option<string>, obj: Object) returns (allowed: bool)
    ensures allowed <==>
      !u.isAnonymous && u.isActive &&
      (u.isSuperuser || obj.Other? ||
       (exists g :: g in u.groups && (g.isGlobal || g.isOrgLevel) && g.permissions == 15) ||
       (action.Some? && exists g :: g in u.groups && ConcernsObject(g, obj) && Grants(g, action.value)))
  {
    if u.isAnonymous || !u.isActive {
      return false;
    }
    if IsGlobalAdmin(u) || IsOrgAdmin(u) {
      return true;
    }
    if obj.Other? {
      return true;
    }
    var groups := ObjectGroups(u.groups, obj);
    if action.Some? {
      for i := 0 to |groups|
        invariant forall j :: 0 <= j < i ==> !Grants(groups[j], action.value)
      {
        if Grants(groups[i], action.value) {
          assert groups[i] in groups;
          return true;
        }
      }
    }
    return false;
  }

  // ---------- monotonicity ----------

  /** Joining a further group never takes a permission away. */
  lemma JoiningKeepsPermissions(u: User, g: Group, action: string, target: Target)
    ensures AllowedOn(u, action, target) ==> AllowedOn(u.(groups := u.groups + [g]), action, target)
  {
    var v := u.(groups := u.groups + [g]);
    assert forall h :: h in u.groups ==> h in v.groups;
  }

  lemma WithinCreateHead(action: string)
    requires WithinCreate(action)
    ensures |action| <= 6 && (action == "" || action[0] in {'c', 'r', 'e', 'a', 't'})
  {
    var i, j :| 0 <= i <= j <= 6 && action == "create"[i..j];
    if action != "" {
      assert action[0] == "create"[i];
    }
  }

  /** The only known action that is checked against levels is `create`. */
  lemma OnlyCreateIsWithinCreate(action: string)
    requires DigitOf(action).Some?
    ensures WithinCreate(action) <==> action == "create"
  {
    assert "create"[0..6] == "create";
    if WithinCreate(action) {
      WithinCreateHead(action);
    }
  }
}
