/** What merging promises about paths and operation ids. */
module OperationIds {
  import opened Texts
  import opened Json
  import opened Rename
  import opened Aggregator

  /** Names without a slash, and paths that start with one. */
  ghost predicate PlainPaths(apis: seq<Api>) {
    forall i :: 0 <= i < |apis| ==>
      SLASH !in apis[i].name &&
      forall k :: Get(Section(apis[i].spec, PATHS), k).Some? ==> k != [] && k[0] == SLASH
  }

  ghost predicate IsPathOf(api: Api, path: Text) {
    SLASH in path && Get(Section(api.spec, PATHS), path).Some?
  }

  /** The first segment under which the merged document shows a service's path. */
  function Segment(api: Api, path: Text): Text
    requires SLASH in path
  {
    if api.name == BUILDLY then ServiceName(path) else api.name
  }

  /** The gateway's own paths keep their place: none of them lies under another service's name. */
  ghost predicate GatewayApart(apis: seq<Api>) {
    forall i, j, k ::
      (0 <= i < |apis| && 0 <= j < |apis| && apis[i].name == BUILDLY && apis[j].name != BUILDLY &&
       IsPathOf(apis[i], k)) ==>
      ServiceName(k) != apis[j].name
  }

  // ---------- paths ----------

  lemma {:induction false} RenamedKeySource(ms: seq<Member>, api: Text, k: Text) returns (q: Text)
    requires Get(RenamedMembers(ms, api), k).Some?
    ensures Qualify(q, api) == k && Get(ms, q).Some?
    ensures Get(RenamedMembers(ms, api), k) == Some(Renamed(Get(ms, q).value, api))
  {
    var i := GetMember(RenamedMembers(ms, api), k);
    q := ms[i].key;
    RenamedGet(ms, api, q);
  }

  lemma PrefixedKeySource(ms: seq<Member>, prefix: Text, k: Text) returns (q: Text)
    requires DistinctKeys(ms) && Get(Prefixed(ms, prefix), k).Some?
    ensures k == prefix + q && Get(ms, q) == Get(Prefixed(ms, prefix), k)
  {
    var i := GetMember(Prefixed(ms, prefix), k);
    q := ms[i].key;
    PrefixedGet(ms, prefix, q);
  }

  lemma QualifyKeepsSlash(k: Text, api: Text)
    requires k != [] && k[0] == SLASH
    ensures Qualify(k, api) != [] && Qualify(k, api)[0] == SLASH
  {
    MarkerFacts();
  }

  /** A path under `/name` is recognised by its first segment. */
  lemma ServiceOfPrefixed(name: Text, path: Text)
    requires SLASH !in name && path != [] && path[0] == SLASH
    ensures SLASH in [SLASH] + name + path && ServiceName([SLASH] + name + path) == name
  {
    var p := [SLASH] + name + path;
    assert p[0] == SLASH;
    assert p[1..] == name + [SLASH] + path[1..];
    BeforeOfJoin(name, SLASH, path[1..]);
  }

  lemma {:induction false} BeforeQualified(s: Text, api: Text)
    ensures Before(Qualify(s, api), SLASH) == Before(s, SLASH)
    decreases |s|
  {
    MarkerFacts();
    if s == [] {
    } else if MARKER <= s {
      assert MARKER[1] == SLASH && MARKER[0] != SLASH;
      var r := Qualify(s, api);
      assert r[0] == MARKER[0] && r[1] == SLASH;
      assert s == [s[0]] + [SLASH] + s[2..] && r == [s[0]] + [SLASH] + r[2..];
      BeforeOfJoin([s[0]], SLASH, s[2..]);
      BeforeOfJoin([s[0]], SLASH, r[2..]);
    } else {
      BeforeQualified(s[1..], api);
    }
  }

  /** The rename leaves the first segment of a path as it is. */
  lemma SegmentQualified(k: Text, api: Text)
    requires k != [] && k[0] == SLASH
    ensures SLASH in Qualify(k, api) && ServiceName(Qualify(k, api)) == ServiceName(k)
  {
    MarkerFacts();
    var r := Qualify(k, api);
    assert r == [SLASH] + Qualify(k[1..], api);
    assert r[0] == SLASH && r[1..] == Qualify(k[1..], api);
    BeforeQualified(k[1..], api);
  }

  /** Where a path of the merged document comes from. */
  lemma PathSource(apis: seq<Api>, i: nat, k: Text) returns (q: Text)
    requires ValidApis(apis) && PlainPaths(apis) && i < |apis|
    requires Get(ApiPaths(apis[i]), k).Some?
    ensures IsPathOf(apis[i], q) && SLASH in k && ServiceName(k) == Segment(apis[i], q)
  {
    NameFacts();
    var spec, name := apis[i].spec, apis[i].name;
    SectionRenamed(spec, name, PATHS);
    RenamedSectionDistinct(spec, name, PATHS);
    var section := Section(Renamed(spec, name), PATHS);
    if name == BUILDLY {
      q := RenamedKeySource(Section(spec, PATHS), name, k);
      SegmentQualified(q, name);
    } else {
      var rest := PrefixedKeySource(section, [SLASH] + name, k);
      q := RenamedKeySource(Section(spec, PATHS), name, rest);
      QualifyKeepsSlash(q, name);
      ServiceOfPrefixed(name, rest);
    }
    assert q[0] == SLASH;
  }

  /** `path.split('/')[1]` recovers the service that owns a merged path. */
  lemma OwnerOfPath(apis: seq<Api>, i: nat, k: Text)
    requires ValidApis(apis) && PlainPaths(apis) && i < |apis|
    requires Get(ApiPaths(apis[i]), k).Some?
    ensures SLASH in k
    ensures apis[i].name != BUILDLY ==> ServiceName(k) == apis[i].name
  {
    var q := PathSource(apis, i, k);
  }

  /** No two services have a first segment in common. */
  lemma PathsApart(apis: seq<Api>, i: nat, j: nat, p: Text, q: Text)
    requires ValidApis(apis) && PlainPaths(apis) && GatewayApart(apis) && i < |apis| && j < |apis|
    requires Get(ApiPaths(apis[i]), p).Some? && Get(ApiPaths(apis[j]), q).Some?
    requires SLASH in p && SLASH in q && ServiceName(p) == ServiceName(q)
    ensures i == j
  {
    var p' := PathSource(apis, i, p);
    var q' := PathSource(apis, j, q);
  }

  lemma NoSharedPath(apis: seq<Api>, i: nat, j: nat, k: Text)
    requires ValidApis(apis) && PlainPaths(apis) && GatewayApart(apis) && i < j < |apis|
    requires Get(ApiPaths(apis[i]), k).Some?
    ensures Get(ApiPaths(apis[j]), k).None?
  {
    if Get(ApiPaths(apis[j]), k).Some? {
      OwnerOfPath(apis, i, k);
      PathsApart(apis, i, j, k, k);
    }
  }

  /** Merging loses no path, and every merged path belongs to one service. */
  lemma NoPathLost(apis: seq<Api>)
    requires ValidApis(apis) && PlainPaths(apis) && GatewayApart(apis)
    ensures NothingLost(AllPaths(apis))
    ensures forall k :: Get(MergeAll(AllPaths(apis)), k).Some? ==>
      exists i :: 0 <= i < |apis| && Get(ApiPaths(apis[i]), k) == Get(MergeAll(AllPaths(apis)), k)
  {
    SectionsDistinct(apis);
    var ds := AllPaths(apis);
    forall i, j, k | 0 <= i < j < |ds| && Get(ds[i], k).Some?
      ensures Get(ds[j], k).None?
    {
      NoSharedPath(apis, i, j, k);
    }
    MergeExactly(ds);
    forall k | Get(MergeAll(ds), k).Some?
      ensures exists i :: 0 <= i < |apis| && Get(ApiPaths(apis[i]), k) == Get(MergeAll(ds), k)
    {
      MergeAllSource(ds, k);
      var i :| 0 <= i < |ds| && Get(ds[i], k) == Get(MergeAll(ds), k);
      assert ds[i] == ApiPaths(apis[i]);
    }
  }

  // ---------- operation ids ----------

  /** An entry of one operation of a `paths` dict. */
  ghost function EntryAt(paths: seq<Member>, path: Text, action: Text, k: Text): Option<Json> {
    match Get(paths, path)
    case Some(item) => EntryOf(item, action, k)
    case None => None
  }

  /** The same of one path item. */
  ghost function EntryOf(item: Json, action: Text, k: Text): Option<Json> {
    if !item.Obj? then None
    else
      match Get(item.members, action)
      case Some(Obj(os)) => Get(os, k)
      case _ => None
  }

  /** Three lookups one after the other, each in a dict. */
  lemma EntryExactly(paths: seq<Member>, path: Text, action: Text, k: Text, v: Json)
    ensures EntryAt(paths, path, action, k) == Some(v) <==>
      exists item: seq<Member>, operation: seq<Member> ::
        Get(paths, path) == Some(Obj(item)) && Get(item, action) == Some(Obj(operation)) && Get(operation, k) == Some(v)
  {
    if EntryAt(paths, path, action, k) == Some(v) {
      var item := Get(paths, path).value.members;
      var operation := Get(item, action).value.members;
      assert Get(paths, path) == Some(Obj(item)) && Get(item, action) == Some(Obj(operation));
    }
  }

  /** The id of one operation of a `paths` dict, as `format` prints it. */
  ghost function OperationIdAt(paths: seq<Member>, path: Text, action: Text): Option<Text> {
    match EntryAt(paths, path, action, OPERATION_ID)
    case Some(id) => Formatted(id)
    case None => None
  }

  ghost predicate UniqueIds(paths: seq<Member>) {
    forall p, a, q, b ::
      (OperationIdAt(paths, p, a).Some? && OperationIdAt(paths, p, a) == OperationIdAt(paths, q, b)) ==>
      p == q && a == b
  }

  /** The id of a renamed operation is the renamed id. */
  lemma RenamedId(os: seq<Member>, api: Text)
    requires WellFormed(Obj(os)) && Get(RenamedMembers(os, api), OPERATION_ID).Some?
    ensures Get(os, OPERATION_ID).Some?
    ensures Formatted(Get(RenamedMembers(os, api), OPERATION_ID).value) ==
      match Formatted(Get(os, OPERATION_ID).value) case Some(t) => Some(Qualify(t, api)) case None => None
  {
    NameFacts();
    QualifyUnhashed(OPERATION_ID, api);
    RenamedGet(os, api, OPERATION_ID);
    WellFormedGet(os, OPERATION_ID);
    RenamedFormatted(Get(os, OPERATION_ID).value, api);
  }

  lemma RenamedIdSource(ms: seq<Member>, api: Text, p: Text, a: Text) returns (q: Text, b: Text)
    requires WellFormed(Obj(ms)) && OperationIdAt(RenamedMembers(ms, api), p, a).Some?
    ensures p == Qualify(q, api) && a == Qualify(b, api)
    ensures OperationIdAt(ms, q, b).Some?
    ensures OperationIdAt(RenamedMembers(ms, api), p, a).value == Qualify(OperationIdAt(ms, q, b).value, api)
  {
    q := RenamedKeySource(ms, api, p);
    WellFormedGet(ms, q);
    var item := Get(ms, q).value.members;
    b := RenamedKeySource(item, api, a);
    WellFormedGet(item, b);
    RenamedId(Get(item, b).value.members, api);
  }

  lemma RenamedUnique(ms: seq<Member>, api: Text)
    requires WellFormed(Obj(ms)) && UniqueIds(ms)
    ensures UniqueIds(RenamedMembers(ms, api))
  {
    var r := RenamedMembers(ms, api);
    forall p, a, q, b | OperationIdAt(r, p, a).Some? && OperationIdAt(r, p, a) == OperationIdAt(r, q, b)
      ensures p == q && a == b
    {
      var p', a' := RenamedIdSource(ms, api, p, a);
      var q', b' := RenamedIdSource(ms, api, q, b);
      QualifyInjective(OperationIdAt(ms, p', a').value, OperationIdAt(ms, q', b').value, api);
    }
  }

  lemma PrefixedUnique(ms: seq<Member>, prefix: Text)
    requires DistinctKeys(ms) && UniqueIds(ms)
    ensures UniqueIds(Prefixed(ms, prefix))
  {
    var r := Prefixed(ms, prefix);
    forall p, a, q, b | OperationIdAt(r, p, a).Some? && OperationIdAt(r, p, a) == OperationIdAt(r, q, b)
      ensures p == q && a == b
    {
      var p' := PrefixedKeySource(ms, prefix, p);
      var q' := PrefixedKeySource(ms, prefix, q);
      assert OperationIdAt(ms, p', a) == OperationIdAt(ms, q', b);
    }
  }

  lemma ApiIdsUnique(api: Api)
    requires IsSpecification(api.spec) && UniqueIds(Section(api.spec, PATHS))
    ensures UniqueIds(ApiPaths(api))
  {
    NameFacts();
    SectionRenamed(api.spec, api.name, PATHS);
    RenamedSectionDistinct(api.spec, api.name, PATHS);
    SectionWellFormed(api.spec, PATHS);
    RenamedUnique(Section(api.spec, PATHS), api.name);
    PrefixedUnique(Section(Renamed(api.spec, api.name), PATHS), [SLASH] + api.name);
  }

  /** Two dicts with the same keys in the same places find a key in the same place. */
  lemma {:induction false} SameKeysGet(r: seq<Member>, s: seq<Member>, k: Text) returns (i: nat)
    requires |r| == |s| && forall j :: 0 <= j < |r| ==> r[j].key == s[j].key
    ensures Get(r, k).Some? <==> Get(s, k).Some?
    ensures Get(s, k).Some? ==>
      i < |s| && s[i].key == k && Get(s, k).value == s[i].value && Get(r, k).value == r[i].value
  {
    i := 0;
    if r != [] && r[0].key != k {
      var j := SameKeysGet(r[1..], s[1..], k);
      i := j + 1;
    }
  }

  /** Rewriting puts the service's name and a dot before each id and touches no other. */
  lemma RewrittenId(paths: seq<Member>, p: Text, a: Text)
    requires ArePaths(paths)
    ensures Get(paths, p).Some? ==> SLASH in p
    ensures OperationIdAt(PathsWithIds(paths), p, a) ==
      match OperationIdAt(paths, p, a) case Some(id) => Some(ServiceName(p) + [DOT] + id) case None => None
    ensures forall id :: EntryAt(paths, p, a, OPERATION_ID) == Some(Str(id)) ==>
      EntryAt(PathsWithIds(paths), p, a, OPERATION_ID) == Some(Str(ServiceName(p) + [DOT] + id)) &&
      OperationIdAt(paths, p, a) == Some(id)
  {
    var i := SameKeysGet(PathsWithIds(paths), paths, p);
    if Get(paths, p).Some? {
      assert IsPath(paths[i]);
      var item := paths[i].value.members;
      var j := SameKeysGet(ItemWithIds(item, ServiceName(p)), item, a);
    }
  }

  /** Every other entry stays as it is. */
  lemma RewrittenEntry(paths: seq<Member>, p: Text, a: Text, k: Text)
    requires ArePaths(paths) && k != OPERATION_ID
    ensures EntryAt(PathsWithIds(paths), p, a, k) == EntryAt(paths, p, a, k)
  {
    var i := SameKeysGet(PathsWithIds(paths), paths, p);
    if Get(paths, p).Some? {
      assert IsPath(paths[i]);
      var item := paths[i].value.members;
      var j := SameKeysGet(ItemWithIds(item, ServiceName(p)), item, a);
      if Get(item, a).Some? {
        ActionRewritten(item[j].value, ServiceName(p));
      }
    }
  }

  /** No service name begins with another one and a dot. */
  ghost predicate NoDottedPrefix(m: Text, n: Text) {
    !(m + [DOT] <= n) && !(n + [DOT] <= m)
  }

  /** Exactly then can ids of the two services never collide. */
  lemma CollisionExactly(m: Text, n: Text)
    requires m != n
    ensures NoDottedPrefix(m, n) <==> forall x, y :: m + [DOT] + x != n + [DOT] + y
  {
    if m + [DOT] <= n {
      var y := n[|m| + 1..] + [DOT];
      assert m + [DOT] + y == n + [DOT] + [];
    }
    if n + [DOT] <= m {
      var x := m[|n| + 1..] + [DOT];
      assert m + [DOT] + [] == n + [DOT] + x;
    }
    if NoDottedPrefix(m, n) {
      forall x, y ensures m + [DOT] + x != n + [DOT] + y {
        if |m| <= |n| { ShorterNameDiffers(m, x, n, y); } else { ShorterNameDiffers(n, y, m, x); }
      }
    }
  }

  lemma ShorterNameDiffers(m: Text, x: Text, n: Text, y: Text)
    requires m != n && |m| <= |n| && !(m + [DOT] <= n)
    ensures m + [DOT] + x != n + [DOT] + y
  {
    var s, t := m + [DOT] + x, n + [DOT] + y;
    assert t[..|n|] == n;
    if |m| < |n| {
      assert s[..|m| + 1] == m + [DOT] && t[..|m| + 1] == n[..|m| + 1];
    } else {
      assert s[..|m|] == m;
    }
  }

  /** No first segment begins with another one and a dot. */
  ghost predicate SegmentsApart(apis: seq<Api>) {
    forall i, j, p, q ::
      (0 <= i < |apis| && 0 <= j < |apis| && IsPathOf(apis[i], p) && IsPathOf(apis[j], q) &&
       Segment(apis[i], p) != Segment(apis[j], q)) ==>
      NoDottedPrefix(Segment(apis[i], p), Segment(apis[j], q))
  }

  /** What the specifications need for the operation ids to stay unique. */
  ghost predicate IdPremises(apis: seq<Api>) {
    ValidApis(apis) && Rewritable(apis) && PlainPaths(apis) && GatewayApart(apis) && SegmentsApart(apis) &&
    forall i :: 0 <= i < |apis| ==> UniqueIds(Section(apis[i].spec, PATHS))
  }

  /** The service an operation of the final document belongs to, and its id before the rewriting. */
  lemma FinalIdSource(apis: seq<Api>, p: Text, a: Text) returns (i: nat, q: Text)
    requires IdPremises(apis) && OperationIdAt(FinalPaths(apis), p, a).Some?
    ensures i < |apis| && IsPathOf(apis[i], q) && SLASH in p && ServiceName(p) == Segment(apis[i], q)
    ensures Get(ApiPaths(apis[i]), p).Some? && OperationIdAt(ApiPaths(apis[i]), p, a).Some?
    ensures OperationIdAt(FinalPaths(apis), p, a).value
         == ServiceName(p) + [DOT] + OperationIdAt(ApiPaths(apis[i]), p, a).value
  {
    var merged := MergeAll(AllPaths(apis));
    RewritableMerge(apis);
    NoPathLost(apis);
    RewrittenId(merged, p, a);
    i :| 0 <= i < |apis| && Get(ApiPaths(apis[i]), p) == Get(merged, p);
    q := PathSource(apis, i, p);
  }

  /** Ids unique within each service are unique across the whole final document. */
  lemma OperationIdsUnique(apis: seq<Api>)
    requires IdPremises(apis)
    ensures UniqueIds(FinalPaths(apis))
  {
    var r := FinalPaths(apis);
    forall p, a, q, b | OperationIdAt(r, p, a).Some? && OperationIdAt(r, p, a) == OperationIdAt(r, q, b)
      ensures p == q && a == b
    {
      var i, p' := FinalIdSource(apis, p, a);
      var j, q' := FinalIdSource(apis, q, b);
      var m, n := ServiceName(p), ServiceName(q);
      var x, y := OperationIdAt(ApiPaths(apis[i]), p, a).value, OperationIdAt(ApiPaths(apis[j]), q, b).value;
      SameSegment(m, x, n, y);
      PathsApart(apis, i, j, p, q);
      ApiIdsUnique(apis[i]);
      assert OperationIdAt(ApiPaths(apis[i]), p, a) == OperationIdAt(ApiPaths(apis[i]), q, b);
    }
  }

  lemma SameSegment(m: Text, x: Text, n: Text, y: Text)
    requires m != n ==> NoDottedPrefix(m, n)
    requires m + [DOT] + x == n + [DOT] + y
    ensures m == n && x == y
  {
    if m != n {
      CollisionExactly(m, n);
    }
    PrefixInjective(m + [DOT], x, y);
  }
}
