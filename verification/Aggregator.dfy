/** Merging the specifications of all services into one document (`SwaggerAggregator`). */
module Aggregator {
  import opened Texts
  import opened Json
  import opened Rename

  /** A service's name and the specification fetched for it. */
  datatype Api = Api(name: Text, spec: Json)

  const DEFINITIONS: Text := Lit("definitions")
  const PATHS: Text := Lit("paths")
  const OPERATION_ID: Text := Lit("operationId")
  const BUILDLY: Text := Lit("buildly")

  // ---------- what the code demands of a specification ----------

  predicate IsSection(spec: Json, name: Text)
    requires spec.Obj?
  {
    var s := Get(spec.members, name);
    s.None? || s.value.Obj?
  }

  /** A JSON object whose `definitions` and `paths`, if any, are objects. */
  ghost predicate IsSpecification(spec: Json) {
    WellFormed(spec) && spec.Obj? && IsSection(spec, DEFINITIONS) && IsSection(spec, PATHS)
  }

  /** On specifications, too, the text route is the tree rename exactly for names without quote,
      backslash and control characters. */
  lemma SpecificationRenameExactly(api: Text)
    ensures Replace.Clean(api) <==>
      forall spec :: IsSpecification(spec) ==> RenameByText(spec, api) == Some(Renamed(spec, api))
  {
    if Replace.Clean(api) {
      forall spec | IsSpecification(spec) ensures RenameByText(spec, api) == Some(Renamed(spec, api)) {
        TextRenameIsTreeRename(spec, api);
      }
    } else {
      UncleanNameFails(api);
      ReferenceIsSpecification();
    }
  }

  lemma ReferenceIsSpecification()
    ensures IsSpecification(ReferenceTo(MARKER))
  {
    ReferenceWellFormed();
    RefFacts();
    NameFacts();
    GetSingle(REF, Str(MARKER), DEFINITIONS);
    GetSingle(REF, Str(MARKER), PATHS);
  }

  lemma GetSingle(k: Text, v: Json, q: Text)
    ensures Get([Member(k, v)], q) == if k == q then Some(v) else None
  {
    assert [Member(k, v)][1..] == [];
  }

  /** A name that may stand in a JSON string as it is, or a specification with nothing to rename. */
  ghost predicate Renamable(api: Api) {
    Replace.Clean(api.name) || Unmarked(Dumps(api.spec))
  }

  /** The services of one aggregation: a dict, so names differ. */
  ghost predicate ValidApis(apis: seq<Api>) {
    (forall i, j :: 0 <= i < j < |apis| ==> apis[i].name != apis[j].name) &&
    forall i :: 0 <= i < |apis| ==> Renamable(apis[i]) && IsSpecification(apis[i].spec)
  }

  lemma RenamedByText(api: Api)
    requires Renamable(api) && IsSpecification(api.spec)
    ensures RenameByText(api.spec, api.name) == Some(Renamed(api.spec, api.name))
  {
    if Replace.Clean(api.name) {
      TextRenameIsTreeRename(api.spec, api.name);
    } else {
      UnmarkedTextRename(api.spec, api.name);
    }
  }

  // ---------- one specification ----------

  function Section(spec: Json, name: Text): seq<Member> {
    match spec
    case Obj(members) =>
      (match Get(members, name)
       case Some(Obj(ms)) => ms
       case _ => [])
    case _ => []
  }

  function Prefixed(ms: seq<Member>, prefix: Text): (r: seq<Member>)
    ensures |r| == |ms|
    ensures forall i :: 0 <= i < |r| ==> r[i] == Member(prefix + ms[i].key, ms[i].value)
  {
    if ms == [] then []
    else Prefixed(ms[..|ms| - 1], prefix) + [Member(prefix + ms[|ms| - 1].key, ms[|ms| - 1].value)]
  }

  lemma PrefixInjective(p: Text, a: Text, b: Text)
    requires p + a == p + b
    ensures a == b
  {
    assert (p + a)[|p|..] == a && (p + b)[|p|..] == b;
  }

  lemma PrefixedDistinct(ms: seq<Member>, prefix: Text)
    requires DistinctKeys(ms)
    ensures DistinctKeys(Prefixed(ms, prefix))
  {
    var r := Prefixed(ms, prefix);
    forall i, j | 0 <= i < j < |r| ensures r[i].key != r[j].key {
      if r[i].key == r[j].key {
        PrefixInjective(prefix, ms[i].key, ms[j].key);
      }
    }
  }

  /** Prefixing every key moves each lookup along. */
  lemma {:induction false} PrefixedGet(ms: seq<Member>, prefix: Text, k: Text)
    requires DistinctKeys(ms)
    ensures Get(Prefixed(ms, prefix), prefix + k) == Get(ms, k)
  {
    var r := Prefixed(ms, prefix);
    PrefixedDistinct(ms, prefix);
    if Get(ms, k).Some? {
      var i := GetMember(ms, k);
      GetAt(r, i);
    } else {
      GetNone(ms, k);
      GetNone(r, prefix + k);
      forall i | 0 <= i < |r| ensures r[i].key != prefix + k {
        if r[i].key == prefix + k {
          PrefixInjective(prefix, ms[i].key, k);
        }
      }
    }
  }

  /** `_update_specification`: the entries of a section, their names prefixed. */
  method UpdateSpecification(name: Text, apiName: Text, spec: Json) returns (result: seq<Member>)
    requires spec.Obj? && IsSection(spec, name) && DistinctKeys(Section(spec, name))
    ensures result == Prefixed(Section(spec, name), apiName)
  {
    result := [];
    if Get(spec.members, name).Some? {
      var specification := Get(spec.members, name).value.members;
      for i := 0 to |specification|
        invariant result == Prefixed(specification[..i], apiName)
      {
        var specName := apiName + specification[i].key;
        assert specification[..i + 1][..i] == specification[..i];
        assert DistinctKeys(specification[..i + 1]);
        PrefixedDistinct(specification[..i + 1], apiName);
        var next := Prefixed(specification[..i + 1], apiName);
        assert next == result + [Member(specName, specification[i].value)];
        assert forall j :: 0 <= j < i ==> next[j] == result[j];
        GetNone(result, specName);
        result := Put(result, specName, specification[i].value);
      }
      assert specification[..|specification|] == specification;
    }
  }

  // ---------- all specifications ----------

  /** What a specification adds to the definitions, under a service's name. */
  function DefinitionsOf(spec: Json, name: Text): seq<Member> {
    Prefixed(Section(spec, DEFINITIONS), name)
  }

  function PathsOf(spec: Json, name: Text): seq<Member> {
    if name == BUILDLY then Section(spec, PATHS) else Prefixed(Section(spec, PATHS), [SLASH] + name)
  }

  function ApiDefinitions(api: Api): seq<Member> {
    DefinitionsOf(Renamed(api.spec, api.name), api.name)
  }

  function ApiPaths(api: Api): seq<Member> {
    PathsOf(Renamed(api.spec, api.name), api.name)
  }

  function AllDefinitions(apis: seq<Api>): seq<seq<Member>> {
    seq(|apis|, i requires 0 <= i < |apis| => ApiDefinitions(apis[i]))
  }

  function AllPaths(apis: seq<Api>): seq<seq<Member>> {
    seq(|apis|, i requires 0 <= i < |apis| => ApiPaths(apis[i]))
  }

  /** The specification as it comes back from the text; `None` where parsing it, or taking the
      entries of a section, raises. */
  function Loaded(api: Api): Option<Json> {
    match RenameByText(api.spec, api.name)
    case None => None
    case Some(spec) => if spec.Obj? && IsSection(spec, DEFINITIONS) && IsSection(spec, PATHS) then Some(spec) else None
  }

  predicate AllLoad(apis: seq<Api>) {
    forall i :: 0 <= i < |apis| ==> Loaded(apis[i]).Some?
  }

  function LoadedDefinitions(apis: seq<Api>): (r: seq<seq<Member>>)
    requires AllLoad(apis)
    ensures |r| == |apis|
    ensures forall i :: 0 <= i < |r| ==> r[i] == DefinitionsOf(Loaded(apis[i]).value, apis[i].name)
  {
    seq(|apis|, i requires 0 <= i < |apis| => DefinitionsOf(Loaded(apis[i]).value, apis[i].name))
  }

  function LoadedPaths(apis: seq<Api>): (r: seq<seq<Member>>)
    requires AllLoad(apis)
    ensures |r| == |apis|
    ensures forall i :: 0 <= i < |r| ==> r[i] == PathsOf(Loaded(apis[i]).value, apis[i].name)
  {
    seq(|apis|, i requires 0 <= i < |apis| => PathsOf(Loaded(apis[i]).value, apis[i].name))
  }

  /** Where names need no escape, or there is nothing to rename, this is the tree rename. */
  lemma ValidApisLoad(apis: seq<Api>)
    requires ValidApis(apis)
    ensures AllLoad(apis)
    ensures LoadedDefinitions(apis) == AllDefinitions(apis) && LoadedPaths(apis) == AllPaths(apis)
  {
    forall i | 0 <= i < |apis| ensures Loaded(apis[i]) == Some(Renamed(apis[i].spec, apis[i].name)) {
      RenamedByText(apis[i]);
      RenamedSpecification(apis[i].spec, apis[i].name);
    }
  }

  /** `d.update(ds[0]); d.update(ds[1]); ...` from the empty dict. */
  function MergeAll(ds: seq<seq<Member>>): seq<Member> {
    if ds == [] then [] else Update(MergeAll(ds[..|ds| - 1]), ds[|ds| - 1])
  }

  lemma {:induction false} MergeAllDistinct(ds: seq<seq<Member>>)
    ensures DistinctKeys(MergeAll(ds))
  {
    if ds != [] {
      MergeAllDistinct(ds[..|ds| - 1]);
      UpdateDistinct(MergeAll(ds[..|ds| - 1]), ds[|ds| - 1]);
    }
  }

  /** The last dict that has the key has this entry under it. */
  ghost predicate LastWith(ds: seq<seq<Member>>, i: nat, k: Text, v: Option<Json>) {
    i < |ds| && Get(ds[i], k) == v && forall j :: i < j < |ds| ==> Get(ds[j], k).None?
  }

  /** A merged entry comes from the last dict that has its key, and a key that some dict has is merged. */
  lemma {:induction false} MergeAllSource(ds: seq<seq<Member>>, k: Text)
    requires forall i :: 0 <= i < |ds| ==> DistinctKeys(ds[i])
    ensures Get(MergeAll(ds), k).Some? ==>
      exists i :: 0 <= i < |ds| && Get(ds[i], k) == Get(MergeAll(ds), k) && LastWith(ds, i, k, Get(MergeAll(ds), k))
    ensures forall i :: 0 <= i < |ds| && Get(ds[i], k).Some? ==> Get(MergeAll(ds), k).Some?
  {
    if ds != [] {
      var n := |ds| - 1;
      MergeAllSource(ds[..n], k);
      UpdateGet(MergeAll(ds[..n]), ds[n], k);
      if Get(ds[n], k).None? && Get(MergeAll(ds[..n]), k).Some? {
        var i :| 0 <= i < n && Get(ds[..n][i], k) == Get(MergeAll(ds[..n]), k) &&
          LastWith(ds[..n], i, k, Get(MergeAll(ds[..n]), k));
        assert forall j :: i < j < n ==> ds[j] == ds[..n][j];
        assert LastWith(ds, i, k, Get(MergeAll(ds), k));
      } else if Get(ds[n], k).Some? {
        assert LastWith(ds, n, k, Get(MergeAll(ds), k));
      }
      forall i | 0 <= i < |ds| && Get(ds[i], k).Some? ensures Get(MergeAll(ds), k).Some? {
        if i < n { assert ds[..n][i] == ds[i]; }
      }
    }
  }

  /** Two dicts that share a key hold the same value there. */
  ghost predicate NoClash(ds: seq<seq<Member>>) {
    forall i, j, k :: 0 <= i < j < |ds| && Get(ds[i], k).Some? && Get(ds[j], k).Some? ==>
      Get(ds[i], k) == Get(ds[j], k)
  }

  /** Every entry of every dict survives the merge. */
  ghost predicate NothingLost(ds: seq<seq<Member>>) {
    forall i, k :: 0 <= i < |ds| && Get(ds[i], k).Some? ==> Get(MergeAll(ds), k) == Get(ds[i], k)
  }

  /** The merge loses nothing exactly when no two services put different things under one name. */
  lemma MergeExactly(ds: seq<seq<Member>>)
    requires forall i :: 0 <= i < |ds| ==> DistinctKeys(ds[i])
    ensures NothingLost(ds) <==> NoClash(ds)
  {
    if NoClash(ds) {
      forall i, k | 0 <= i < |ds| && Get(ds[i], k).Some? ensures Get(MergeAll(ds), k) == Get(ds[i], k) {
        MergeAllSource(ds, k);
        var j :| 0 <= j < |ds| && Get(ds[j], k) == Get(MergeAll(ds), k);
        if i != j {
          assert Get(ds[i], k) == Get(ds[j], k);
        }
      }
    }
    if NothingLost(ds) {
      forall i, j, k | 0 <= i < j < |ds| && Get(ds[i], k).Some? && Get(ds[j], k).Some?
        ensures Get(ds[i], k) == Get(ds[j], k)
      {
        assert Get(MergeAll(ds), k) == Get(ds[i], k);
      }
    }
  }

  lemma SectionDistinct(spec: Json, name: Text)
    requires WellFormed(spec)
    ensures DistinctKeys(Section(spec, name))
  {
    if spec.Obj? && Get(spec.members, name).Some? {
      var i := GetMember(spec.members, name);
      assert WellFormedMember(spec.members[i]);
      var section := spec.members[i].value;
      if section.Obj? {
        assert WellFormed(section);
        assert DistinctKeys(section.members);
      }
    }
  }

  lemma SectionRenamed(spec: Json, api: Text, name: Text)
    requires IsSpecification(spec) && IsSection(spec, name) && '#' as int !in name
    ensures Section(Renamed(spec, api), name) == RenamedMembers(Section(spec, name), api)
    ensures Get(Renamed(spec, api).members, name).Some? <==> Get(spec.members, name).Some?
    ensures IsSection(Renamed(spec, api), name)
  {
    RenamedGet(spec.members, api, name);
    QualifyUnhashed(name, api);
  }

  lemma RenamedSectionDistinct(spec: Json, api: Text, name: Text)
    requires IsSpecification(spec) && IsSection(spec, name) && '#' as int !in name
    ensures DistinctKeys(Section(Renamed(spec, api), name))
  {
    SectionDistinct(spec, name);
    SectionRenamed(spec, api, name);
    RenamedDistinct(Section(spec, name), api);
  }

  /** Renaming keys and values moves each lookup along, because the rename is injective. */
  lemma {:induction false} RenamedGet(ms: seq<Member>, api: Text, k: Text)
    ensures Get(RenamedMembers(ms, api), Qualify(k, api)) ==
      match Get(ms, k) case Some(v) => Some(Renamed(v, api)) case None => None
  {
    if ms != [] {
      RenamedGet(ms[1..], api, k);
      if Qualify(ms[0].key, api) == Qualify(k, api) {
        QualifyInjective(ms[0].key, k, api);
      }
    }
  }

  lemma NameFacts()
    ensures '#' as int !in DEFINITIONS && '#' as int !in PATHS && '#' as int !in OPERATION_ID
    ensures DEFINITIONS != PATHS
  {
    assert forall i :: 0 <= i < |DEFINITIONS| ==> DEFINITIONS[i] == "definitions"[i] as int != '#' as int;
    assert |PATHS| == 5 && |DEFINITIONS| == 11;
    assert PATHS == ['p' as int, 'a' as int, 't' as int, 'h' as int, 's' as int];
    assert OPERATION_ID == ['o' as int, 'p' as int, 'e' as int, 'r' as int, 'a' as int, 't' as int,
                            'i' as int, 'o' as int, 'n' as int, 'I' as int, 'd' as int];
  }

  lemma SectionsDistinct(apis: seq<Api>)
    requires ValidApis(apis)
    ensures forall i :: 0 <= i < |apis| ==> DistinctKeys(AllDefinitions(apis)[i])
    ensures forall i :: 0 <= i < |apis| ==> DistinctKeys(AllPaths(apis)[i])
  {
    NameFacts();
    forall i | 0 <= i < |apis|
      ensures DistinctKeys(AllDefinitions(apis)[i]) && DistinctKeys(AllPaths(apis)[i])
    {
      RenamedSectionDistinct(apis[i].spec, apis[i].name, DEFINITIONS);
      RenamedSectionDistinct(apis[i].spec, apis[i].name, PATHS);
      PrefixedDistinct(Section(Renamed(apis[i].spec, apis[i].name), DEFINITIONS), apis[i].name);
      PrefixedDistinct(Section(Renamed(apis[i].spec, apis[i].name), PATHS), [SLASH] + apis[i].name);
    }
  }

  // ---------- operation ids ----------

  /** `path.split('/')[1]`. */
  function ServiceName(path: Text): Text
    requires SLASH in path
  {
    Before(path[|Before(path, SLASH)| + 1..], SLASH)
  }

  /** What stands between the first two slashes. */
  lemma ServiceNameExactly(a: Text, name: Text, rest: Text)
    requires SLASH !in a && SLASH !in name && (rest == [] || rest[0] == SLASH)
    ensures var path := a + [SLASH] + (name + rest); SLASH in path && ServiceName(path) == name
  {
    var path := a + [SLASH] + (name + rest);
    BeforeOfJoin(a, SLASH, name + rest);
    assert path[|a|] == SLASH && path[|a| + 1..] == name + rest;
    if rest == [] {
      BeforeAll(name, SLASH);
      assert name + rest == name;
    } else {
      BeforeOfJoin(name, SLASH, rest[1..]);
      assert name + rest == name + [SLASH] + rest[1..];
    }
  }

  /** What `format` puts in for an operation id; `None` for a list or a dict. */
  function Formatted(j: Json): Option<Text> {
    match j
    case Str(s) => Some(s)
    case Num(lexeme) => Some(lexeme)
    case Bool(b) => Some(if b then Lit("True") else Lit("False"))
    case Null => Some(Lit("None"))
    case _ => None
  }

  /** An entry of a path item on which the loop does not raise: an operation whose id, if any, is
      no list or dict, or a list or string that does not hold the word `operationId`. */
  predicate IsAction(j: Json) {
    match j
    case Obj(ms) => Get(ms, OPERATION_ID).None? || Formatted(Get(ms, OPERATION_ID).value).Some?
    case Arr(elems) => Str(OPERATION_ID) !in elems
    case Str(s) => !Contains(s, OPERATION_ID)
    case _ => false
  }

  /** The loop raises on numbers, words and lists or strings with the word in them, and the model leaves
      out ids that are lists or dicts. */
  lemma ActionExactly(j: Json)
    ensures IsAction(j) <==>
      (j.Obj? && (Get(j.members, OPERATION_ID).None? ||
                  !(Get(j.members, OPERATION_ID).value.Arr? || Get(j.members, OPERATION_ID).value.Obj?))) ||
      (j.Arr? && forall i :: 0 <= i < |j.elems| ==> j.elems[i] != Str(OPERATION_ID)) ||
      (j.Str? && forall a, b :: j.s != a + (OPERATION_ID + b))
  {
    if j.Str? {
      ContainsExactly(j.s, OPERATION_ID);
    }
  }

  lemma ContainsExactly(s: Text, pat: Text)
    ensures Contains(s, pat) <==> exists a, b :: s == a + (pat + b)
  {
    if Contains(s, pat) {
      var i :| 0 <= i <= |s| && pat <= s[i..];
      assert s == s[..i] + (pat + s[i..][|pat|..]);
    }
    if a, b :| s == a + (pat + b) {
      assert s[|a|..] == pat + b;
    }
  }

  predicate IsPath(m: Member) {
    SLASH in m.key && m.value.Obj? &&
    forall i :: 0 <= i < |m.value.members| ==> IsAction(m.value.members[i].value)
  }

  predicate ArePaths(paths: seq<Member>) {
    forall i :: 0 <= i < |paths| ==> IsPath(paths[i])
  }

  function ActionWithId(j: Json, service: Text): Json {
    match j
    case Obj(ms) =>
      (match Get(ms, OPERATION_ID)
       case Some(id) =>
         (match Formatted(id)
          case Some(t) => Obj(Put(ms, OPERATION_ID, Str(service + [DOT] + t)))
          case None => j)
       case None => j)
    case _ => j
  }

  /** After the rewriting: an operation with an id has the new one and its other entries as they were,
      each in its place; anything else is as it was. */
  ghost predicate OnlyIdRewritten(before: Json, after: Json, service: Text) {
    if before.Obj? && Get(before.members, OPERATION_ID).Some? then
      after.Obj? && |after.members| == |before.members| &&
      (forall i :: 0 <= i < |before.members| ==> after.members[i].key == before.members[i].key) &&
      (forall i :: 0 <= i < |before.members| && before.members[i].key != OPERATION_ID ==>
        after.members[i] == before.members[i]) &&
      (forall k :: k != OPERATION_ID ==> Get(after.members, k) == Get(before.members, k)) &&
      (Get(before.members, OPERATION_ID).value.Str? ==>
        Get(after.members, OPERATION_ID) == Some(Str(service + [DOT] + Get(before.members, OPERATION_ID).value.s))) &&
      forall id :: Formatted(Get(before.members, OPERATION_ID).value) == Some(id) ==>
        Get(after.members, OPERATION_ID) == Some(Str(service + [DOT] + id))
    else after == before
  }

  lemma ActionRewritten(j: Json, service: Text)
    requires IsAction(j)
    ensures OnlyIdRewritten(j, ActionWithId(j, service), service)
  {
    if j.Obj? && Get(j.members, OPERATION_ID).Some? {
      var id := Formatted(Get(j.members, OPERATION_ID).value).value;
      PutInPlace(j.members, OPERATION_ID, Str(service + [DOT] + id));
    }
  }

  /** The entries of a path item keep their names and places. */
  ghost predicate ItemRewritten(before: seq<Member>, after: seq<Member>, service: Text) {
    |after| == |before| &&
    forall i :: 0 <= i < |before| ==>
      after[i].key == before[i].key && OnlyIdRewritten(before[i].value, after[i].value, service)
  }

  function ItemWithIds(ms: seq<Member>, service: Text): (r: seq<Member>)
    ensures |r| == |ms|
    ensures forall i :: 0 <= i < |r| ==> r[i] == Member(ms[i].key, ActionWithId(ms[i].value, service))
  {
    seq(|ms|, i requires 0 <= i < |ms| => Member(ms[i].key, ActionWithId(ms[i].value, service)))
  }

  // ---------- what the loop demands of the specifications ----------

  /** The same of an entry before the rename. */
  predicate IsPlainAction(j: Json, api: Text) {
    match j
    case Str(s) => !Contains(Qualify(s, api), OPERATION_ID)
    case _ => IsAction(j)
  }

  /** Path items are objects with entries of this kind, and the gateway's own paths, which get no
      prefix, have a slash. */
  predicate IsPlainPath(m: Member, api: Text) {
    m.value.Obj? && (api == BUILDLY ==> SLASH in m.key) &&
    forall i :: 0 <= i < |m.value.members| ==> IsPlainAction(m.value.members[i].value, api)
  }

  /** Specifications on whose paths `generate_operation_id` does not raise. */
  predicate Rewritable(apis: seq<Api>) {
    forall i, n :: 0 <= i < |apis| && 0 <= n < |Section(apis[i].spec, PATHS)| ==>
      IsPlainPath(Section(apis[i].spec, PATHS)[n], apis[i].name)
  }

  lemma RenamedFormatted(j: Json, api: Text)
    requires WellFormed(j)
    ensures Formatted(Renamed(j, api)) == match Formatted(j) case Some(t) => Some(Qualify(t, api)) case None => None
  {
    match j
    case Num(lexeme) =>
      NumberFacts(lexeme);
      QualifyUnhashed(lexeme, api);
    case Bool(b) =>
      WordsUnhashed();
      QualifyUnhashed(if b then Lit("True") else Lit("False"), api);
    case Null =>
      WordsUnhashed();
      QualifyUnhashed(Lit("None"), api);
    case _ =>
  }

  lemma WordsUnhashed()
    ensures '#' as int !in Lit("True") && '#' as int !in Lit("False") && '#' as int !in Lit("None")
  {
    assert Lit("True") == ['T' as int, 'r' as int, 'u' as int, 'e' as int];
    assert Lit("False") == ['F' as int, 'a' as int, 'l' as int, 's' as int, 'e' as int];
    assert Lit("None") == ['N' as int, 'o' as int, 'n' as int, 'e' as int];
  }

  lemma WellFormedGet(ms: seq<Member>, k: Text)
    requires WellFormed(Obj(ms)) && Get(ms, k).Some?
    ensures WellFormed(Get(ms, k).value)
  {
    var i := GetMember(ms, k);
    assert WellFormedMember(ms[i]);
  }

  lemma RenamedAction(j: Json, api: Text)
    requires WellFormed(j) && IsPlainAction(j, api)
    ensures IsAction(Renamed(j, api))
  {
    NameFacts();
    QualifyUnhashed(OPERATION_ID, api);
    match j
    case Obj(ms) =>
      RenamedGet(ms, api, OPERATION_ID);
      if Get(ms, OPERATION_ID).Some? {
        WellFormedGet(ms, OPERATION_ID);
        RenamedFormatted(Get(ms, OPERATION_ID).value, api);
      }
    case Arr(elems) =>
      forall i | 0 <= i < |elems| ensures Renamed(elems[i], api) != Str(OPERATION_ID) {
        assert elems[i] in elems;
        if Renamed(elems[i], api) == Str(OPERATION_ID) {
          QualifyInjective(elems[i].s, OPERATION_ID, api);
        }
      }
    case _ =>
  }

  lemma {:induction false} QualifyKeepsSlashes(s: Text, api: Text)
    requires SLASH in s
    ensures SLASH in Qualify(s, api)
    decreases |s|
  {
    MarkerFacts();
    if MARKER <= s {
      assert MARKER[1] == SLASH;
      assert Qualify(s, api)[1] == (MARKER + api)[1];
    } else if s[0] != SLASH {
      QualifyKeepsSlashes(s[1..], api);
    }
  }

  lemma RenamedPath(m: Member, api: Text)
    requires WellFormed(m.value) && IsPlainPath(m, api) && SLASH in m.key
    ensures IsPath(Member(Qualify(m.key, api), Renamed(m.value, api)))
  {
    QualifyKeepsSlashes(m.key, api);
    var ms := m.value.members;
    forall i | 0 <= i < |ms| ensures IsAction(RenamedMembers(ms, api)[i].value) {
      assert WellFormedMember(ms[i]);
      RenamedAction(ms[i].value, api);
    }
  }

  lemma SectionWellFormed(spec: Json, name: Text)
    requires WellFormed(spec)
    ensures WellFormed(Obj(Section(spec, name)))
  {
    if spec.Obj? && Get(spec.members, name).Some? {
      WellFormedGet(spec.members, name);
    }
  }

  lemma ApiArePaths(api: Api)
    requires IsSpecification(api.spec)
    requires forall n :: 0 <= n < |Section(api.spec, PATHS)| ==> IsPlainPath(Section(api.spec, PATHS)[n], api.name)
    ensures ArePaths(ApiPaths(api))
  {
    NameFacts();
    SectionRenamed(api.spec, api.name, PATHS);
    SectionWellFormed(api.spec, PATHS);
    var section := Section(api.spec, PATHS);
    forall n | 0 <= n < |section| ensures IsPath(ApiPaths(api)[n]) {
      var m := section[n];
      assert WellFormedMember(m) && IsPlainPath(m, api.name);
      if api.name == BUILDLY {
        RenamedPath(m, api.name);
      } else {
        PrefixedPath(m, api.name);
      }
    }
  }

  lemma PrefixedPath(m: Member, api: Text)
    requires WellFormed(m.value) && IsPlainPath(m, api)
    ensures IsPath(Member([SLASH] + api + Qualify(m.key, api), Renamed(m.value, api)))
  {
    var slashed := Member([SLASH] + m.key, m.value);
    RenamedPath(slashed, api);
    assert ([SLASH] + api + Qualify(m.key, api))[0] == SLASH;
  }

  lemma {:induction false} PutArePaths(d: seq<Member>, k: Text, v: Json)
    requires ArePaths(d) && IsPath(Member(k, v))
    ensures ArePaths(Put(d, k, v))
  {
    if d != [] && d[0].key != k {
      assert forall i :: 0 <= i < |d[1..]| ==> d[1..][i] == d[i + 1];
      PutArePaths(d[1..], k, v);
    }
  }

  lemma {:induction false} UpdateArePaths(d: seq<Member>, e: seq<Member>)
    requires ArePaths(d) && ArePaths(e)
    ensures ArePaths(Update(d, e))
    decreases |e|
  {
    if e != [] {
      assert e[0] == Member(e[0].key, e[0].value);
      PutArePaths(d, e[0].key, e[0].value);
      UpdateArePaths(Put(d, e[0].key, e[0].value), e[1..]);
    }
  }

  lemma {:induction false} MergedArePaths(ds: seq<seq<Member>>)
    requires forall i :: 0 <= i < |ds| ==> ArePaths(ds[i])
    ensures ArePaths(MergeAll(ds))
  {
    if ds != [] {
      MergedArePaths(ds[..|ds| - 1]);
      UpdateArePaths(MergeAll(ds[..|ds| - 1]), ds[|ds| - 1]);
    }
  }

  lemma RewritableMerge(apis: seq<Api>)
    requires ValidApis(apis) && Rewritable(apis)
    ensures ArePaths(MergeAll(AllPaths(apis)))
  {
    forall i | 0 <= i < |apis| ensures ArePaths(AllPaths(apis)[i]) {
      ApiArePaths(apis[i]);
    }
    MergedArePaths(AllPaths(apis));
  }

  /** The paths of the document that `generate_swagger` returns. */
  function FinalPaths(apis: seq<Api>): seq<Member>
    requires ValidApis(apis) && Rewritable(apis)
  {
    RewritableMerge(apis);
    PathsWithIds(MergeAll(AllPaths(apis)))
  }

  // ---------- rewriting ----------

  /** So do the paths; the name put before an id is what stands between the first two slashes of the
      path. */
  ghost predicate PathsRewritten(before: seq<Member>, after: seq<Member>) {
    |after| == |before| &&
    forall i :: 0 <= i < |before| ==>
      after[i].key == before[i].key && SLASH in before[i].key && before[i].value.Obj? && after[i].value.Obj? &&
      ItemRewritten(before[i].value.members, after[i].value.members, ServiceName(before[i].key))
  }

  lemma ItemsRewritten(ms: seq<Member>, service: Text)
    requires forall j :: 0 <= j < |ms| ==> IsAction(ms[j].value)
    ensures ItemRewritten(ms, ItemWithIds(ms, service), service)
  {
    forall j | 0 <= j < |ms| ensures OnlyIdRewritten(ms[j].value, ItemWithIds(ms, service)[j].value, service) {
      ActionRewritten(ms[j].value, service);
    }
  }

  lemma IdsRewritten(paths: seq<Member>)
    requires ArePaths(paths)
    ensures PathsRewritten(paths, PathsWithIds(paths))
  {
    forall i | 0 <= i < |paths|
      ensures ItemRewritten(paths[i].value.members, PathsWithIds(paths)[i].value.members, ServiceName(paths[i].key))
    {
      assert IsPath(paths[i]);
      ItemsRewritten(paths[i].value.members, ServiceName(paths[i].key));
    }
  }

  function PathWithIds(m: Member): Member
    requires IsPath(m)
  {
    Member(m.key, Obj(ItemWithIds(m.value.members, ServiceName(m.key))))
  }

  function PathsWithIds(paths: seq<Member>): (r: seq<Member>)
    requires ArePaths(paths)
    ensures |r| == |paths|
    ensures forall i :: 0 <= i < |r| ==> r[i] == PathWithIds(paths[i])
  {
    seq(|paths|, i requires 0 <= i < |paths| => PathWithIds(paths[i]))
  }

  // ---------- the aggregator ----------

  /** The document under construction: the two dicts of `basic_swagger` that change. */
  class Swagger {
    var definitions: seq<Member>
    var paths: seq<Member>

    constructor ()
      ensures definitions == [] && paths == []
    {
      definitions, paths := [], [];
    }

    /** One turn of the loop in `merge_aggregates`. */
    method MergeOne(api: Api) returns (raised: bool, ghost ds: seq<Member>, ghost ps: seq<Member>)
      requires IsSpecification(api.spec)
      modifies this
      ensures raised <==> Loaded(api).None?
      ensures !raised ==> IsLoaded(api, ds, ps)
      ensures !raised ==> definitions == Update(old(definitions), ds) && paths == Update(old(paths), ps)
    {
      raised, ds, ps := true, [], [];
      var loaded := RenameByText(api.spec, api.name);
      if loaded.None? {
        return;
      }
      var spec := loaded.value;
      LoadedIsDict(api.spec, api.name);
      if !IsSection(spec, DEFINITIONS) || !IsSection(spec, PATHS) {
        return;
      }
      raised, ds, ps := false, DefinitionsOf(spec, api.name), PathsOf(spec, api.name);
      if Get(spec.members, DEFINITIONS).Some? {
        var entries := UpdateSpecification(DEFINITIONS, api.name, spec);
        definitions := Update(definitions, entries);
      }
      if Get(spec.members, PATHS).Some? {
        if api.name == BUILDLY {
          paths := Update(paths, Get(spec.members, PATHS).value.members);
        } else {
          var entries := UpdateSpecification(PATHS, [SLASH] + api.name, spec);
          paths := Update(paths, entries);
        }
      }
    }

    /** The loop of `merge_aggregates`. */
    method MergeLoop(apis: seq<Api>)
        returns (raised: bool, ghost ds: seq<seq<Member>>, ghost ps: seq<seq<Member>>)
      requires forall i :: 0 <= i < |apis| ==> IsSpecification(apis[i].spec)
      requires definitions == [] && paths == []
      modifies this
      ensures raised ==> !AllLoad(apis)
      ensures !raised ==>
        AreLoaded(apis, |apis|, ds, ps) && definitions == MergeAll(ds) && paths == MergeAll(ps)
    {
      raised, ds, ps := false, [], [];
      for i := 0 to |apis|
        invariant AreLoaded(apis, i, ds, ps) && !raised
        invariant definitions == MergeAll(ds) && paths == MergeAll(ps)
      {
        ghost var d, p;
        raised, d, p := MergeOne(apis[i]);
        if raised {
          return;
        }
        LoadedSnoc(apis, i, ds, ps, d, p);
        MergeSnoc(ds, d);
        MergeSnoc(ps, p);
        ds, ps := ds + [d], ps + [p];
      }
    }

    /** `merge_aggregates`, on the specifications already fetched. It raises exactly when some
        specification does not come back from its text; otherwise it merges what came back, and for
        names that need no escape that is the renamed tree. */
    method MergeAggregates(apis: seq<Api>) returns (raised: bool)
      requires forall i :: 0 <= i < |apis| ==> IsSpecification(apis[i].spec)
      requires definitions == [] && paths == []
      modifies this
      ensures raised <==> !AllLoad(apis)
      ensures !raised ==> definitions == MergeAll(LoadedDefinitions(apis)) && paths == MergeAll(LoadedPaths(apis))
      ensures ValidApis(apis) ==>
        !raised && definitions == MergeAll(AllDefinitions(apis)) && paths == MergeAll(AllPaths(apis))
    {
      ghost var ds, ps;
      raised, ds, ps := MergeLoop(apis);
      if !raised {
        AllAreLoaded(apis, ds, ps);
      }
      if ValidApis(apis) {
        ValidApisLoad(apis);
      }
    }

    /** `generate_operation_id`: rewrites ids inside the nested dicts. */
    method GenerateOperationId()
      requires ArePaths(paths)
      modifies this`paths
      ensures paths == PathsWithIds(old(paths)) && PathsRewritten(old(paths), paths)
    {
      ghost var before := paths;
      ghost var after := PathsWithIds(before);
      for i := 0 to |paths|
        invariant |paths| == |before|
        invariant forall k :: 0 <= k < i ==> paths[k] == after[k]
        invariant forall k :: i <= k < |paths| ==> paths[k] == before[k]
      {
        assert paths[i] == before[i] && IsPath(before[i]);
        var item := RewriteActions(paths[i].value.members, ServiceName(paths[i].key));
        paths := paths[i := Member(paths[i].key, Obj(item))];
      }
      IdsRewritten(before);
    }

    /** The inner loop of `generate_operation_id`. */
    static method RewriteActions(actions: seq<Member>, serviceName: Text) returns (item: seq<Member>)
      requires forall j :: 0 <= j < |actions| ==> IsAction(actions[j].value)
      ensures item == ItemWithIds(actions, serviceName) && ItemRewritten(actions, item, serviceName)
    {
      item := actions;
      ghost var after := ItemWithIds(actions, serviceName);
      for j := 0 to |item|
        invariant |item| == |actions|
        invariant forall k :: 0 <= k < j ==> item[k] == after[k]
        invariant forall k :: j <= k < |item| ==> item[k] == actions[k]
      {
        var action := item[j].value;
        if action.Obj? && Get(action.members, OPERATION_ID).Some? {
          var currentOpId := Get(action.members, OPERATION_ID).value;
          var newOpId := serviceName + [DOT] + Formatted(currentOpId).value;
          var actionSpec := Put(action.members, OPERATION_ID, Str(newOpId));
          item := item[j := Member(item[j].key, Obj(actionSpec))];
        }
      }
      ItemsRewritten(actions, serviceName);
    }

    /** `generate_swagger`: it raises exactly when the merge does; for names that need no escape the
        paths are those of the renamed trees, their ids rewritten. */
    method GenerateSwagger(apis: seq<Api>) returns (raised: bool)
      requires forall i :: 0 <= i < |apis| ==> IsSpecification(apis[i].spec)
      requires AllLoad(apis) ==> ArePaths(MergeAll(LoadedPaths(apis)))
      requires definitions == [] && paths == []
      modifies this
      ensures raised <==> !AllLoad(apis)
      ensures !raised ==>
        definitions == MergeAll(LoadedDefinitions(apis)) && paths == PathsWithIds(MergeAll(LoadedPaths(apis)))
      ensures ValidApis(apis) && Rewritable(apis) ==>
        !raised && definitions == MergeAll(AllDefinitions(apis)) && paths == FinalPaths(apis)
    {
      raised := MergeAggregates(apis);
      if !raised {
        GenerateOperationId();
        if ValidApis(apis) && Rewritable(apis) {
          ValidApisLoad(apis);
        }
      }
    }
  }

  lemma MergeSnoc(ds: seq<seq<Member>>, d: seq<Member>)
    ensures MergeAll(ds + [d]) == Update(MergeAll(ds), d)
  {
    assert (ds + [d])[..|ds|] == ds;
  }

  /** The entries a loaded specification adds. */
  ghost predicate IsLoaded(api: Api, definitions: seq<Member>, paths: seq<Member>) {
    Loaded(api).Some? && definitions == DefinitionsOf(Loaded(api).value, api.name) &&
    paths == PathsOf(Loaded(api).value, api.name)
  }

  /** The entries of the first services. */
  ghost predicate AreLoaded(apis: seq<Api>, n: nat, ds: seq<seq<Member>>, ps: seq<seq<Member>>) {
    |ds| == |ps| == n <= |apis| && forall k :: 0 <= k < n ==> IsLoaded(apis[k], ds[k], ps[k])
  }

  lemma LoadedSnoc(apis: seq<Api>, n: nat, ds: seq<seq<Member>>, ps: seq<seq<Member>>, d: seq<Member>, p: seq<Member>)
    requires n < |apis| && AreLoaded(apis, n, ds, ps) && IsLoaded(apis[n], d, p)
    ensures AreLoaded(apis, n + 1, ds + [d], ps + [p])
  {
    forall k | 0 <= k < n + 1 ensures IsLoaded(apis[k], (ds + [d])[k], (ps + [p])[k]) {
      assert k < n ==> (ds + [d])[k] == ds[k] && (ps + [p])[k] == ps[k];
    }
  }

  lemma AllAreLoaded(apis: seq<Api>, ds: seq<seq<Member>>, ps: seq<seq<Member>>)
    requires AreLoaded(apis, |apis|, ds, ps)
    ensures AllLoad(apis) && ds == LoadedDefinitions(apis) && ps == LoadedPaths(apis)
  {
  }

  // ---------- what parsing gives back ----------

  lemma ParsedDistinct(w: Text)
    requires ParseValue(w).Some? && ParseValue(w).value.0.Obj?
    ensures DistinctKeys(ParseValue(w).value.0.members)
  {
    var v := SkipSpace(w[1..]);
    if v[0] != CLOSE_BRACE {
      UpdateDistinct([], ParseMembers(v).value.0);
    }
  }

  ghost predicate DistinctInside(ms: seq<Member>) {
    forall i :: 0 <= i < |ms| && ms[i].value.Obj? ==> DistinctKeys(ms[i].value.members)
  }

  lemma {:induction false} MembersDistinctInside(w: Text)
    requires ParseMembers(w).Some?
    ensures DistinctInside(ParseMembers(w).value.0)
    decreases |w|
  {
    MemberDistinctInside(w);
    var (m, rest) := ParseMember(w).value;
    var v := SkipSpace(rest);
    if v[0] == COMMA {
      MembersDistinctInside(SkipSpace(v[1..]));
    }
  }

  lemma MemberDistinctInside(w: Text)
    requires ParseMember(w).Some?
    ensures ParseMember(w).value.0.value.Obj? ==> DistinctKeys(ParseMember(w).value.0.value.members)
  {
    var (key, after) := ScanString(w[1..]).value;
    var u := SkipSpace(SkipSpace(after)[1..]);
    assert ParseMember(w).value.0.value == ParseValue(u).value.0;
    if ParseValue(u).value.0.Obj? {
      ParsedDistinct(u);
    }
  }

  /** What comes back is a dict whose sections are dicts with distinct keys. */
  lemma LoadedIsDict(spec: Json, api: Text)
    requires spec.Obj? && RenameByText(spec, api).Some?
    ensures var r := RenameByText(spec, api).value;
      r.Obj? && DistinctKeys(Section(r, DEFINITIONS)) && DistinctKeys(Section(r, PATHS))
  {
    var w := Qualify(Dumps(spec), api);
    QualifyWrapped(OPEN_BRACE, DumpsMembers(spec.members), CLOSE_BRACE, api);
    assert w[0] == OPEN_BRACE && SkipSpace(w) == w;
    var r := RenameByText(spec, api).value;
    assert r == ParseValue(w).value.0;
    SectionOfParsed(w, DEFINITIONS);
    SectionOfParsed(w, PATHS);
  }

  lemma SectionOfParsed(w: Text, name: Text)
    requires w != [] && w[0] == OPEN_BRACE && ParseValue(w).Some?
    ensures ParseValue(w).value.0.Obj? && DistinctKeys(Section(ParseValue(w).value.0, name))
  {
    var v := SkipSpace(w[1..]);
    if v[0] != CLOSE_BRACE {
      var ms := ParseMembers(v).value.0;
      MembersDistinctInside(v);
      assert ParseValue(w).value.0 == Obj(Update([], ms));
      if Get(Update([], ms), name).Some? {
        UpdateValues([], ms, name);
      }
    }
  }

  lemma RenamedSpecification(spec: Json, api: Text)
    requires IsSpecification(spec)
    ensures var r := Renamed(spec, api);
      r.Obj? && IsSection(r, DEFINITIONS) && IsSection(r, PATHS) &&
      DistinctKeys(Section(r, DEFINITIONS)) && DistinctKeys(Section(r, PATHS))
  {
    NameFacts();
    SectionRenamed(spec, api, DEFINITIONS);
    SectionRenamed(spec, api, PATHS);
    RenamedSectionDistinct(spec, api, DEFINITIONS);
    RenamedSectionDistinct(spec, api, PATHS);
  }
}
