/** References of the merged document: JSON Pointers (RFC 6901) under `$ref` keys. */
module References {
  import opened Texts
  import opened Json
  import opened Rename
  import opened Aggregator
  import Keys
  import OperationIds

  const TILDE: Code := '~' as int

  // ---------- pointers ----------

  /** The parts of a pointer between slashes. */
  function Tokens(t: Text): (r: seq<Text>)
    ensures r != []
    decreases |t|
  {
    var b := Before(t, SLASH);
    if |b| == |t| then [b] else [b] + Tokens(t[|b| + 1..])
  }

  /** Evaluation of `~1` and `~0` (section 4 of RFC 6901). */
  function Decoded(t: Text): Text {
    if t == [] then []
    else if |t| > 1 && t[0] == TILDE && t[1] == '1' as int then [SLASH] + Decoded(t[2..])
    else if |t| > 1 && t[0] == TILDE && t[1] == '0' as int then [TILDE] + Decoded(t[2..])
    else [t[0]] + Decoded(t[1..])
  }

  function DecodedAll(ts: seq<Text>): (r: seq<Text>)
    ensures |r| == |ts|
    ensures forall i :: 0 <= i < |r| ==> r[i] == Decoded(ts[i])
  {
    seq(|ts|, i requires 0 <= i < |ts| => Decoded(ts[i]))
  }

  /** An array index: digits without a leading zero. */
  function IndexOf(t: Text): Option<nat> {
    if t == [] || Digits(t) != |t| || (|t| > 1 && t[0] == '0' as int) then None else Some(DigitsValue(t))
  }

  function Child(j: Json, token: Text): Option<Json> {
    match j
    case Obj(members) => Get(members, token)
    case Arr(elems) =>
      (match IndexOf(token)
       case Some(n) => if n < |elems| then Some(elems[n]) else None
       case None => None)
    case _ => None
  }

  function Walk(j: Json, tokens: seq<Text>): Option<Json>
    decreases |tokens|
  {
    if tokens == [] then Some(j)
    else
      match Child(j, tokens[0])
      case None => None
      case Some(v) => Walk(v, tokens[1..])
  }

  /** What a local reference `#/...` points to in a document. */
  function Resolve(doc: Json, ref: Text): Option<Json> {
    if |ref| < 2 || ref[0] != '#' as int || ref[1] != SLASH then None
    else Walk(doc, DecodedAll(Tokens(ref[2..])))
  }

  // ---------- the final document ----------

  const SWAGGER: Text := Lit("swagger")
  const INFO: Text := Lit("info")
  const HOST: Text := Lit("host")
  const BASE_PATH: Text := Lit("basePath")
  const CONSUMES: Text := Lit("consumes")
  const PRODUCES: Text := Lit("produces")

  /** The entries of the configuration that `merge_aggregates` copies. */
  datatype Configuration = Configuration(info: Json, host: Json, basePath: Json, consumes: Json, produces: Json)

  /** `basic_swagger` with the given definitions and paths. */
  function Document(c: Configuration, definitions: seq<Member>, paths: seq<Member>): Json {
    Obj([Member(SWAGGER, Str(Lit("2.0"))), Member(INFO, c.info), Member(HOST, c.host),
         Member(BASE_PATH, c.basePath), Member(CONSUMES, c.consumes), Member(PRODUCES, c.produces),
         Member(DEFINITIONS, Obj(definitions)), Member(PATHS, Obj(paths))])
  }

  /** What `generate_swagger` returns. */
  function FinalDocument(c: Configuration, apis: seq<Api>): Json
    requires ValidApis(apis) && Rewritable(apis)
  {
    Document(c, MergeAll(AllDefinitions(apis)), FinalPaths(apis))
  }

  lemma DocumentKeys(c: Configuration, definitions: seq<Member>, paths: seq<Member>)
    ensures DistinctKeys(Document(c, definitions, paths).members)
  {
    assert SWAGGER[0] == 's' as int && INFO[0] == 'i' as int && HOST[0] == 'h' as int && BASE_PATH[0] == 'b' as int;
    assert CONSUMES[0] == 'c' as int && DEFINITIONS[0] == 'd' as int;
    assert PRODUCES[0] == 'p' as int && PATHS[0] == 'p' as int && PRODUCES[1] == 'r' as int && PATHS[1] == 'a' as int;
  }

  /** The document has the copied entries and the two merged sections. */
  lemma DocumentEntries(c: Configuration, definitions: seq<Member>, paths: seq<Member>)
    ensures var ms := Document(c, definitions, paths).members;
      Get(ms, SWAGGER) == Some(Str(Lit("2.0"))) && Get(ms, INFO) == Some(c.info) && Get(ms, HOST) == Some(c.host) &&
      Get(ms, BASE_PATH) == Some(c.basePath) && Get(ms, CONSUMES) == Some(c.consumes) &&
      Get(ms, PRODUCES) == Some(c.produces) && Get(ms, DEFINITIONS) == Some(Obj(definitions)) &&
      Get(ms, PATHS) == Some(Obj(paths))
  {
    var ms := Document(c, definitions, paths).members;
    DocumentKeys(c, definitions, paths);
    GetAt(ms, 0);
    GetAt(ms, 1);
    GetAt(ms, 2);
    GetAt(ms, 3);
    GetAt(ms, 4);
    GetAt(ms, 5);
    GetAt(ms, 6);
    GetAt(ms, 7);
  }

  lemma DocumentDefinitions(c: Configuration, definitions: seq<Member>, paths: seq<Member>)
    ensures Child(Document(c, definitions, paths), DEFINITIONS) == Some(Obj(definitions))
  {
    DocumentEntries(c, definitions, paths);
  }

  // ---------- pointers and the rename ----------

  function QualifyAll(ts: seq<Text>, api: Text): (r: seq<Text>)
    ensures |r| == |ts|
    ensures forall i :: 0 <= i < |r| ==> r[i] == Qualify(ts[i], api)
  {
    seq(|ts|, i requires 0 <= i < |ts| => Qualify(ts[i], api))
  }

  function RenamedOption(o: Option<Json>, api: Text): Option<Json> {
    match o case Some(v) => Some(Renamed(v, api)) case None => None
  }

  /** A step whose token is unmarked goes to the renamed child. */
  lemma ChildRenamed(j: Json, token: Text, api: Text)
    requires Unmarked(token)
    ensures Child(Renamed(j, api), token) == RenamedOption(Child(j, token), api)
  {
    QualifyUnmarked(token, api);
    if j.Obj? {
      RenamedGet(j.members, api, token);
    }
  }

  lemma {:induction false} WalkRenamed(j: Json, tokens: seq<Text>, api: Text)
    requires forall i :: 0 <= i < |tokens| ==> Unmarked(tokens[i])
    ensures Walk(Renamed(j, api), tokens) == RenamedOption(Walk(j, tokens), api)
    decreases |tokens|
  {
    if tokens != [] {
      ChildRenamed(j, tokens[0], api);
      if Child(j, tokens[0]).Some? {
        WalkRenamed(Child(j, tokens[0]).value, tokens[1..], api);
      }
    }
  }

  lemma {:induction false} TokensOfPrefixed(a: Text, t: Text)
    requires SLASH !in a
    ensures Tokens(a + t) == [a + Tokens(t)[0]] + Tokens(t)[1..]
  {
    var b := Before(t, SLASH);
    BeforePrefixed(a, t);
    if |b| < |t| {
      assert (a + t)[|a + b| + 1..] == t[|b| + 1..];
    }
  }

  lemma {:induction false} BeforePrefixed(a: Text, t: Text)
    requires SLASH !in a
    ensures Before(a + t, SLASH) == a + Before(t, SLASH)
  {
    if a == [] {
      assert a + t == t && a + Before(t, SLASH) == Before(t, SLASH);
    } else {
      assert (a + t)[0] == a[0] && (a + t)[1..] == a[1..] + t;
      BeforePrefixed(a[1..], t);
      assert a == [a[0]] + a[1..];
    }
  }

  /** Nothing in the text is evaluated as `~0` or `~1`. */
  predicate NoEscape(t: Text) {
    forall i :: 0 <= i < |t| - 1 && t[i] == TILDE ==> t[i + 1] != '0' as int && t[i + 1] != '1' as int
  }

  lemma {:induction false} DecodedPrefixed(a: Text, t: Text)
    requires NoEscape(a) && (a == [] || a[|a| - 1] != TILDE)
    ensures Decoded(a + t) == a + Decoded(t)
  {
    if a == [] {
      assert a + t == t && a + Decoded(t) == Decoded(t);
    } else {
      assert (a + t)[0] == a[0] && (a + t)[1..] == a[1..] + t;
      if |a| > 1 {
        assert (a + t)[1] == a[1];
        assert forall i :: 0 <= i < |a| - 1 ==> a[1..][i] == a[i + 1];
      }
      DecodedPrefixed(a[1..], t);
      assert a == [a[0]] + a[1..];
    }
  }

  lemma {:induction false} DecodedShortens(t: Text)
    ensures |Decoded(t)| <= |t|
    ensures !NoEscape(t) ==> |Decoded(t)| < |t|
    decreases |t|
  {
    if t != [] {
      DecodedShortens(t[1..]);
      if |t| > 1 {
        DecodedShortens(t[2..]);
      }
      if !NoEscape(t) && !(|t| > 1 && t[0] == TILDE && (t[1] == '0' as int || t[1] == '1' as int)) {
        var i :| 0 <= i < |t| - 1 && t[i] == TILDE && (t[i + 1] == '0' as int || t[i + 1] == '1' as int);
        assert t[1..][i - 1] == t[i] && t[1..][i] == t[i + 1];
      }
    }
  }

  /** The tokens of the definition reference with tail `t`. */
  lemma DefinitionTokens(t: Text)
    ensures DecodedAll(Tokens((MARKER + t)[2..])) == [DEFINITIONS] + DecodedAll(Tokens(t))
    ensures |MARKER + t| > 2 && (MARKER + t)[0] == '#' as int && (MARKER + t)[1] == SLASH
  {
    MarkerSplit();
    assert (MARKER + t)[2..] == DEFINITIONS + [SLASH] + t;
    PlainDefinitions();
    FirstToken(DEFINITIONS, t);
    var ts := Tokens(t);
    assert DecodedAll([DEFINITIONS] + ts) == [Decoded(DEFINITIONS)] + DecodedAll(ts);
  }

  lemma FirstToken(a: Text, t: Text)
    requires SLASH !in a
    ensures Tokens(a + [SLASH] + t) == [a] + Tokens(t)
  {
    BeforeOfJoin(a, SLASH, t);
    assert (a + [SLASH] + t)[|a| + 1..] == t;
  }

  lemma PlainDefinitions()
    ensures SLASH !in DEFINITIONS && Decoded(DEFINITIONS) == DEFINITIONS
  {
    NoSlashInDefinitions();
    DecodedPrefixed(DEFINITIONS, []);
    assert DEFINITIONS + [] == DEFINITIONS && DEFINITIONS + Decoded([]) == DEFINITIONS;
  }

  lemma MarkerSplit()
    ensures MARKER == ['#' as int, SLASH] + DEFINITIONS + [SLASH]
  {
    NoSlashInDefinitions();
    assert MARKER == ['#' as int, '/' as int, 'd' as int, 'e' as int, 'f' as int, 'i' as int, 'n' as int,
                      'i' as int, 't' as int, 'i' as int, 'o' as int, 'n' as int, 's' as int, '/' as int];
  }

  lemma NoSlashInDefinitions()
    ensures SLASH !in DEFINITIONS && TILDE !in DEFINITIONS
    ensures DEFINITIONS == ['d' as int, 'e' as int, 'f' as int, 'i' as int, 'n' as int, 'i' as int,
                            't' as int, 'i' as int, 'o' as int, 'n' as int, 's' as int]
  {
    assert DEFINITIONS == ['d' as int, 'e' as int, 'f' as int, 'i' as int, 'n' as int, 'i' as int,
                           't' as int, 'i' as int, 'o' as int, 'n' as int, 's' as int];
  }

  // ---------- references survive the merge ----------

  /** A reference the rename is meant for: to a definition, with no second marker in its tail or
      in a name on its way. */
  ghost predicate IsDefinitionRef(ref: Text) {
    MARKER <= ref && Unmarked(ref[|MARKER|..]) && AllUnmarked(DecodedAll(Tokens(ref[|MARKER|..])))
  }

  ghost predicate AllUnmarked(ts: seq<Text>) {
    forall i :: 0 <= i < |ts| ==> Unmarked(ts[i])
  }

  /** A name a pointer token may start with: no slash, and no `~` that evaluation would take with
      what follows it. */
  ghost predicate PointerSafe(name: Text) {
    SLASH !in name && NoEscape(name) && (name == [] || name[|name| - 1] != TILDE)
  }

  /** The tokens of the prefixed pointer are the old ones, the first of them prefixed. */
  ghost predicate PrefixesToken(name: Text, t: Text) {
    DecodedAll(Tokens(name + t)) == [name + DecodedAll(Tokens(t))[0]] + DecodedAll(Tokens(t))[1..]
  }

  /** Exactly such names can be put before every definition name inside a reference. */
  lemma PointerSafeExactly(name: Text)
    ensures PointerSafe(name) <==> forall t :: PrefixesToken(name, t)
  {
    if PointerSafe(name) {
      forall t ensures PrefixesToken(name, t) {
        PrefixedTokens(name, t);
      }
    } else {
      var t: Text := if SLASH !in name && NoEscape(name) then ['1' as int] else [];
      UnsafeName(name, t);
    }
  }

  lemma UnsafeName(name: Text, t: Text)
    requires !PointerSafe(name)
    requires t == if SLASH !in name && NoEscape(name) then ['1' as int] else []
    ensures !PrefixesToken(name, t)
  {
    var w := name + t;
    var first := Before(w, SLASH);
    DecodedShortens(first);
    assert Tokens(w)[0] == first;
    assert Decoded(['1' as int]) == ['1' as int] && Decoded([]) == [];
    assert Before(t, SLASH) == t;
    if SLASH in name {
      assert w == name;
      assert |first| < |name|;
    } else {
      BeforeAll(w, SLASH);
      if t != [] {
        assert w[|name| - 1] == TILDE && w[|name|] == '1' as int;
        assert !NoEscape(w);
      } else {
        assert w == name;
      }
    }
    assert |Decoded(first)| < |name + Decoded(t)|;
  }

  /** What is asked of the specifications, and of the name of the service whose references are followed. */
  ghost predicate ReferencePremises(apis: seq<Api>, i: nat) {
    ValidApis(apis) && Rewritable(apis) && i < |apis| && PointerSafe(apis[i].name)
  }

  /** No name is the beginning of another. */
  ghost predicate PrefixFree(apis: seq<Api>) {
    forall i, j :: 0 <= i < |apis| && 0 <= j < |apis| && i != j ==> !(apis[i].name <= apis[j].name)
  }

  lemma ApiDefinitionGet(api: Api, d: Text)
    requires IsSpecification(api.spec) && Unmarked(d)
    ensures Get(ApiDefinitions(api), api.name + d) == RenamedOption(Get(Section(api.spec, DEFINITIONS), d), api.name)
  {
    NameFacts();
    SectionRenamed(api.spec, api.name, DEFINITIONS);
    RenamedSectionDistinct(api.spec, api.name, DEFINITIONS);
    PrefixedGet(Section(Renamed(api.spec, api.name), DEFINITIONS), api.name, d);
    RenamedGet(Section(api.spec, DEFINITIONS), api.name, d);
    QualifyUnmarked(d, api.name);
  }

  /** With prefix-free names, a service's definitions are found under its name and nothing else is. */
  lemma MergedDefinitionGet(apis: seq<Api>, i: nat, d: Text)
    requires ValidApis(apis) && PrefixFree(apis) && i < |apis| && Unmarked(d)
    ensures Get(MergeAll(AllDefinitions(apis)), apis[i].name + d)
         == RenamedOption(Get(Section(apis[i].spec, DEFINITIONS), d), apis[i].name)
  {
    var ds, k := AllDefinitions(apis), apis[i].name + d;
    SectionsDistinct(apis);
    MergeAllSource(ds, k);
    ApiDefinitionGet(apis[i], d);
    forall j | 0 <= j < |apis| && j != i ensures Get(ds[j], k).None? {
      ForeignDefinition(apis, i, j, d);
    }
    if Get(MergeAll(ds), k).Some? {
      var j :| 0 <= j < |ds| && Get(ds[j], k) == Get(MergeAll(ds), k);
      assert j == i;
    } else {
      assert Get(ds[i], k).None?;
    }
  }

  lemma ForeignDefinition(apis: seq<Api>, i: nat, j: nat, d: Text)
    requires ValidApis(apis) && PrefixFree(apis) && i < |apis| && j < |apis| && i != j
    ensures Get(ApiDefinitions(apis[j]), apis[i].name + d).None?
  {
    var k := apis[i].name + d;
    var section := Section(Renamed(apis[j].spec, apis[j].name), DEFINITIONS);
    GetNone(ApiDefinitions(apis[j]), k);
    forall n | 0 <= n < |section| ensures apis[j].name + section[n].key != k {
      PrefixOfJoin(apis[j].name, section[n].key, apis[i].name, d);
    }
  }

  lemma PrefixedTokens(api: Text, t: Text)
    requires PointerSafe(api)
    ensures DecodedAll(Tokens(api + t)) == [api + DecodedAll(Tokens(t))[0]] + DecodedAll(Tokens(t))[1..]
  {
    TokensOfPrefixed(api, t);
    DecodedPrefixed(api, Tokens(t)[0]);
  }

  lemma QualifiedRef(api: Text, ref: Text)
    requires IsDefinitionRef(ref)
    ensures ref == MARKER + ref[|MARKER|..]
    ensures Qualify(ref, api) == MARKER + (api + ref[|MARKER|..])
  {
    var t := ref[|MARKER|..];
    assert ref == MARKER + t;
    QualifyMarked(t, api);
    QualifyUnmarked(t, api);
    ConcatAssociative(MARKER, api, t);
  }

  lemma ResolveDefinition(doc: Json, t: Text)
    ensures Resolve(doc, MARKER + t) == Walk(doc, [DEFINITIONS] + DecodedAll(Tokens(t)))
  {
    DefinitionTokens(t);
  }

  lemma ResolveName(doc: Json, t: Text, d: Text, rest: seq<Text>)
    requires DecodedAll(Tokens(t)) == [d] + rest
    ensures Resolve(doc, MARKER + t) == Walk(doc, [DEFINITIONS, d] + rest)
  {
    ResolveDefinition(doc, t);
    RegroupNames(DEFINITIONS, d, rest);
  }

  lemma RegroupNames(a: Text, b: Text, rest: seq<Text>)
    ensures [a] + ([b] + rest) == [a, b] + rest
  {
  }

  /** How a definition reference of one service reads before and after the merge. */
  lemma ReferenceTokens(api: Text, ref: Text, doc: Json, doc': Json) returns (d: Text, rest: seq<Text>)
    requires IsDefinitionRef(ref) && PointerSafe(api)
    ensures Unmarked(d) && forall i :: 0 <= i < |rest| ==> Unmarked(rest[i])
    ensures Resolve(doc, ref) == Walk(doc, [DEFINITIONS, d] + rest)
    ensures Resolve(doc', Qualify(ref, api)) == Walk(doc', [DEFINITIONS, api + d] + rest)
  {
    var t := ref[|MARKER|..];
    var ts := DecodedAll(Tokens(t));
    d, rest := ts[0], ts[1..];
    QualifiedRef(api, ref);
    PrefixedTokens(api, t);
    assert ts == [d] + rest;
    ResolveName(doc, t, d, rest);
    ResolveName(doc', api + t, api + d, rest);
  }

  lemma WalkTwo(doc: Json, a: Text, b: Text, rest: seq<Text>)
    ensures Walk(doc, [a, b] + rest) ==
      match Child(doc, a)
      case None => None
      case Some(v) => (match Child(v, b) case None => None case Some(w) => Walk(w, rest))
  {
    var ts := [a, b] + rest;
    assert ts[1..] == [b] + rest && ts[1..][1..] == rest;
  }

  /** In the final document the renamed reference reaches the renamed copy of what the reference
      reaches in its service's specification, and nothing when that is nothing. */
  ghost predicate KeepsTarget(c: Configuration, apis: seq<Api>, i: nat, ref: Text)
    requires ValidApis(apis) && Rewritable(apis) && i < |apis|
  {
    IsKept(apis[i].spec, FinalDocument(c, apis), apis[i].name, ref)
  }

  predicate IsKept(spec: Json, doc: Json, name: Text, ref: Text) {
    Resolve(doc, Qualify(ref, name)) == RenamedOption(Resolve(spec, ref), name)
  }

  /** Reference preservation: with prefix-free names, a definition reference of a service
      resolves in the merged document exactly when it did in the service's own specification,
      and then to the renamed copy of the same target. */
  lemma ReferencePreserved(c: Configuration, apis: seq<Api>, i: nat, ref: Text)
    requires ReferencePremises(apis, i) && PrefixFree(apis) && IsDefinitionRef(ref)
    ensures KeepsTarget(c, apis, i, ref)
  {
    var api := apis[i];
    var definitions := MergeAll(AllDefinitions(apis));
    var d, rest := ReferenceTokens(api.name, ref, api.spec, FinalDocument(c, apis));
    WalkTwo(FinalDocument(c, apis), DEFINITIONS, api.name + d, rest);
    WalkTwo(api.spec, DEFINITIONS, d, rest);
    DocumentDefinitions(c, definitions, FinalPaths(apis));
    MergedDefinitionGet(apis, i, d);
    if Get(Section(api.spec, DEFINITIONS), d).Some? {
      WalkRenamed(Get(Section(api.spec, DEFINITIONS), d).value, rest, api.name);
    }
  }

  /** For any names: a resolving reference keeps its target as long as no two services put
      different definitions under one merged name. */
  lemma ReferencePreservedWithoutClash(c: Configuration, apis: seq<Api>, i: nat, ref: Text)
    requires ReferencePremises(apis, i) && NoClash(AllDefinitions(apis))
    requires IsDefinitionRef(ref) && Resolve(apis[i].spec, ref).Some?
    ensures KeepsTarget(c, apis, i, ref)
  {
    var api := apis[i];
    var definitions := MergeAll(AllDefinitions(apis));
    var d, rest := ReferenceTokens(api.name, ref, api.spec, FinalDocument(c, apis));
    WalkTwo(FinalDocument(c, apis), DEFINITIONS, api.name + d, rest);
    WalkTwo(api.spec, DEFINITIONS, d, rest);
    DocumentDefinitions(c, definitions, FinalPaths(apis));
    SectionsDistinct(apis);
    MergeExactly(AllDefinitions(apis));
    ApiDefinitionGet(api, d);
    var k := api.name + d;
    assert Get(AllDefinitions(apis)[i], k).Some?;
    assert Get(definitions, k) == Get(AllDefinitions(apis)[i], k);
    WalkRenamed(Get(Section(api.spec, DEFINITIONS), d).value, rest, api.name);
  }

  lemma PrefixFreeNeverClashes(apis: seq<Api>)
    requires ValidApis(apis) && PrefixFree(apis)
    ensures NoClash(AllDefinitions(apis))
  {
    var ds := AllDefinitions(apis);
    forall i, j, k | 0 <= i < j < |ds| && Get(ds[i], k).Some? ensures Get(ds[j], k).None? {
      SectionsDistinct(apis);
      var section := Section(Renamed(apis[i].spec, apis[i].name), DEFINITIONS);
      var d := OperationIds.PrefixedKeySource(section, apis[i].name, k);
      ForeignDefinition(apis, i, j, d);
    }
  }

  // ---------- which references survive ----------

  /** As many tokens, the first of them the same. */
  ghost predicate SameStart(a: seq<Text>, b: seq<Text>) {
    0 < |a| == |b| && a[0] == b[0]
  }

  /** Some token has got the name in front. */
  ghost predicate SomePrefixed(a: seq<Text>, b: seq<Text>, api: Text)
    requires |a| == |b|
  {
    exists k :: 0 <= k < |a| && b[k] == api + a[k]
  }

  /** The rename puts the name before some token of every marked text. */
  lemma {:induction false} TokensOfMarked(t: Text, api: Text)
    requires SLASH !in api && api != []
    ensures SameStart(Tokens(t), Tokens(Qualify(t, api)))
    ensures !Unmarked(t) ==> SomePrefixed(Tokens(t), Tokens(Qualify(t, api)), api)
    decreases |t|
  {
    if t == [] {
      NothingMarked(api);
    } else if MARKER <= t {
      MarkerFacts();
      var u := t[|MARKER|..];
      assert t == MARKER + u;
      TokensOfMarked(u, api);
      QualifyMarked(u, api);
      MarkerStep(u, Qualify(u, api), api);
    } else {
      var c, v := t[0], t[1..];
      assert t == [c] + v;
      TokensOfMarked(v, api);
      assert Qualify(t, api) == [c] + Qualify(v, api);
      ConsStep(c, v, Qualify(v, api), api);
      if !Unmarked(t) {
        MarkedTail(t);
      }
    }
  }

  lemma NothingMarked(api: Text)
    ensures Unmarked([]) && Qualify([], api) == []
  {
    MarkerFacts();
  }

  lemma MarkerStep(u: Text, q: Text, api: Text)
    requires SLASH !in api && SameStart(Tokens(u), Tokens(q))
    ensures SameStart(Tokens(MARKER + u), Tokens(MARKER + api + q))
    ensures SomePrefixed(Tokens(MARKER + u), Tokens(MARKER + api + q), api)
  {
    MarkerTokens(u);
    MarkerTokens(api + q);
    TokensOfPrefixed(api, q);
    ConcatAssociative(MARKER, api, q);
    assert Tokens(MARKER + api + q)[2] == api + Tokens(MARKER + u)[2];
  }

  lemma ConsStep(c: Code, v: Text, q: Text, api: Text)
    requires SameStart(Tokens(v), Tokens(q)) && api != []
    ensures SameStart(Tokens([c] + v), Tokens([c] + q))
    ensures SomePrefixed(Tokens(v), Tokens(q), api) ==> SomePrefixed(Tokens([c] + v), Tokens([c] + q), api)
  {
    TokensOfCons(c, v);
    TokensOfCons(c, q);
    if c == SLASH {
      PrefixedBehind(Tokens(v), Tokens(q), [], api);
    } else {
      PrefixedInTail(Tokens(v), Tokens(q), [c] + Tokens(v)[0], api);
    }
  }

  lemma PrefixedBehind(a: seq<Text>, b: seq<Text>, x: Text, api: Text)
    requires SameStart(a, b)
    ensures SameStart([x] + a, [x] + b)
    ensures SomePrefixed(a, b, api) ==> SomePrefixed([x] + a, [x] + b, api)
  {
    if SomePrefixed(a, b, api) {
      var k :| 0 <= k < |a| && b[k] == api + a[k];
      assert ([x] + b)[k + 1] == api + ([x] + a)[k + 1];
    }
  }

  /** The token with the name in front is not the first one. */
  lemma PrefixedInTail(a: seq<Text>, b: seq<Text>, x: Text, api: Text)
    requires SameStart(a, b) && api != []
    ensures SameStart([x] + a[1..], [x] + b[1..])
    ensures SomePrefixed(a, b, api) ==> SomePrefixed([x] + a[1..], [x] + b[1..], api)
  {
    if SomePrefixed(a, b, api) {
      var k :| 0 <= k < |a| && b[k] == api + a[k];
      assert |api + a[0]| > |a[0]|;
      assert ([x] + b[1..])[k] == api + ([x] + a[1..])[k];
    }
  }

  lemma MarkedTail(t: Text)
    requires !Unmarked(t) && !(MARKER <= t)
    ensures t != [] && !Unmarked(t[1..])
  {
    MarkerFacts();
    var i :| 0 <= i <= |t| && MARKER <= t[i..];
    assert t[0..] == t;
    assert t[1..][i - 1..] == t[i..];
  }

  lemma TokensOfCons(c: Code, t: Text)
    ensures Tokens([c] + t) == if c == SLASH then [[]] + Tokens(t) else [[c] + Tokens(t)[0]] + Tokens(t)[1..]
  {
    if c == SLASH {
      FirstToken([], t);
      assert [] + [SLASH] + t == [c] + t;
    } else {
      TokensOfPrefixed([c], t);
    }
  }

  lemma MarkerTokens(t: Text)
    ensures Tokens(MARKER + t) == [['#' as int], DEFINITIONS] + Tokens(t)
  {
    MarkerSplit();
    NoSlashInDefinitions();
    TwoTokens(['#' as int], DEFINITIONS, MARKER, t);
  }

  lemma TwoTokens(a: Text, b: Text, m: Text, t: Text)
    requires SLASH !in a && SLASH !in b && m == a + [SLASH] + b + [SLASH]
    ensures Tokens(m + t) == [a, b] + Tokens(t)
  {
    ConcatAssociative(a + [SLASH], b, [SLASH]);
    ConcatAssociative(a + [SLASH], b + [SLASH], t);
    FirstToken(a, b + [SLASH] + t);
    FirstToken(b, t);
  }

  /** Putting a name in front is never what the rename does. */
  lemma PrefixIsNoRename(t: Text, api: Text)
    requires SLASH !in api && api != []
    ensures api + t != Qualify(t, api)
  {
    OperationIds.BeforeQualified(t, api);
    BeforePrefixed(api, t);
    assert |api + Before(t, SLASH)| > |Before(t, SLASH)|;
  }

  /** The names on the way of the renamed reference are the renamed names. */
  ghost predicate NamesAgree(t: Text, api: Text) {
    DecodedAll(Tokens(Qualify(t, api))) == QualifyAll(DecodedAll(Tokens(t)), api)
  }

  lemma DefinitionRefOf(t: Text)
    ensures IsDefinitionRef(MARKER + t) <==> Unmarked(t) && AllUnmarked(DecodedAll(Tokens(t)))
  {
    assert (MARKER + t)[|MARKER|..] == t;
  }

  lemma NamesAgreeExactly(t: Text, api: Text)
    requires PointerSafe(api) && api != []
    ensures NamesAgree(t, api) <==> IsDefinitionRef(MARKER + t)
    ensures |Tokens(Qualify(t, api))| == |Tokens(t)|
  {
    var a, b := Tokens(t), Tokens(Qualify(t, api));
    TokensOfMarked(t, api);
    DefinitionRefOf(t);
    if !Unmarked(t) {
      var k :| 0 <= k < |a| && b[k] == api + a[k];
      DecodedPrefixed(api, a[k]);
      PrefixIsNoRename(Decoded(a[k]), api);
      assert DecodedAll(b)[k] != QualifyAll(DecodedAll(a), api)[k];
    } else {
      QualifyUnmarked(t, api);
      forall k | 0 <= k < |a| ensures Qualify(Decoded(a[k]), api) == Decoded(a[k]) <==> Unmarked(Decoded(a[k])) {
        UnmarkedExactly(Decoded(a[k]), api);
      }
      if NamesAgree(t, api) {
        forall k | 0 <= k < |a| ensures Unmarked(Decoded(a[k])) {
          assert DecodedAll(b)[k] == QualifyAll(DecodedAll(a), api)[k];
        }
      }
    }
  }

  lemma UnmarkedExactly(t: Text, api: Text)
    requires api != []
    ensures Unmarked(t) <==> Qualify(t, api) == t
  {
    QualifyLengthens(t, api);
    if Unmarked(t) {
      QualifyUnmarked(t, api);
    }
  }

  /** The reference resolves in the specification of a service with this name, and no two services
      put different definitions under one name. */
  ghost predicate ResolvesIn(apis: seq<Api>, i: nat, name: Text, ref: Text) {
    ValidApis(apis) && Rewritable(apis) && i < |apis| && apis[i].name == name && NoClash(AllDefinitions(apis)) &&
    Resolve(apis[i].spec, ref).Some?
  }

  ghost predicate AlwaysKept(c: Configuration, name: Text, ref: Text) {
    forall apis: seq<Api>, i: nat :: ResolvesIn(apis, i, name, ref) ==> KeepsTarget(c, apis, i, ref)
  }

  // ---------- a specification for any reference ----------

  /** Nested objects with one key each. */
  function Nest(keys: seq<Text>): Json {
    if keys == [] then Null else Obj([Member(keys[0], Nest(keys[1..]))])
  }

  lemma {:induction false} WalkNest(keys: seq<Text>, tokens: seq<Text>)
    requires |keys| == |tokens|
    ensures Walk(Nest(keys), tokens) == if keys == tokens then Some(Null) else None
  {
    if keys != [] {
      WalkNest(keys[1..], tokens[1..]);
      var ms := [Member(keys[0], Nest(keys[1..]))];
      assert ms[1..] == [] && Get(ms[1..], tokens[0]) == None;
      assert keys == [keys[0]] + keys[1..] && tokens == [tokens[0]] + tokens[1..];
    }
  }

  lemma {:induction false} RenamedNest(keys: seq<Text>, api: Text)
    ensures Renamed(Nest(keys), api) == Nest(QualifyAll(keys, api))
  {
    if keys != [] {
      RenamedNest(keys[1..], api);
      assert QualifyAll(keys, api)[1..] == QualifyAll(keys[1..], api);
      var ms := [Member(keys[0], Nest(keys[1..]))];
      assert RenamedMembers(ms, api) == [Member(Qualify(keys[0], api), Renamed(Nest(keys[1..]), api))];
    }
  }

  lemma {:induction false} NestWellFormed(keys: seq<Text>)
    requires forall i :: 0 <= i < |keys| ==> Replace.NoSplitPair(keys[i])
    ensures WellFormed(Nest(keys))
  {
    if keys != [] {
      NestWellFormed(keys[1..]);
      assert WellFormedMember(Member(keys[0], Nest(keys[1..])));
    }
  }

  /** The service whose specification has just the definition that the reference goes through. */
  function NestApi(name: Text, keys: seq<Text>): Api {
    Api(name, Nest([DEFINITIONS] + keys))
  }

  lemma NestApiValid(name: Text, keys: seq<Text>)
    requires Replace.Clean(name) && keys != []
    requires forall i :: 0 <= i < |keys| ==> Replace.NoSplitPair(keys[i])
    ensures ValidApis([NestApi(name, keys)]) && Rewritable([NestApi(name, keys)])
    ensures NoClash(AllDefinitions([NestApi(name, keys)]))
    ensures MergeAll(AllDefinitions([NestApi(name, keys)]))
         == [Member(name + Qualify(keys[0], name), Nest(QualifyAll(keys[1..], name)))]
  {
    var api := NestApi(name, keys);
    NestIsSpecification(keys);
    assert Section(api.spec, PATHS) == [];
    assert ValidApis([api]) && Rewritable([api]);
    NestCons(DEFINITIONS, keys);
    OneDefinitionMerged(name, keys[0], Nest(keys[1..]));
    RenamedNest(keys[1..], name);
  }

  lemma NestIsSpecification(keys: seq<Text>)
    requires keys != [] && forall i :: 0 <= i < |keys| ==> Replace.NoSplitPair(keys[i])
    ensures IsSpecification(Nest([DEFINITIONS] + keys)) && Section(Nest([DEFINITIONS] + keys), PATHS) == []
  {
    NameFacts();
    DefinitionsPlain();
    NestWellFormed(keys);
    OneSection(DEFINITIONS, Nest(keys), PATHS);
    NestCons(DEFINITIONS, keys);
  }

  lemma NestCons(k: Text, keys: seq<Text>)
    ensures Nest([k] + keys) == Obj([Member(k, Nest(keys))])
  {
    assert ([k] + keys)[1..] == keys;
  }

  lemma DefinitionsPlain()
    ensures Replace.NoSplitPair(DEFINITIONS)
  {
    NoSlashInDefinitions();
  }

  /** An object with one section. */
  lemma OneSection(name: Text, j: Json, other: Text)
    requires Replace.NoSplitPair(name) && WellFormed(j) && j.Obj? && name != other
    ensures var spec := Obj([Member(name, j)]);
      WellFormed(spec) && IsSection(spec, name) && IsSection(spec, other) && Section(spec, other) == []
  {
    GetSingle(name, j, name);
    GetSingle(name, j, other);
    assert WellFormedMember(Member(name, j));
  }

  lemma OneDefinitionMerged(name: Text, d: Text, j: Json)
    ensures var api := Api(name, Obj([Member(DEFINITIONS, Obj([Member(d, j)]))]));
      MergeAll(AllDefinitions([api])) == [Member(name + Qualify(d, name), Renamed(j, name))]
  {
    NameFacts();
    QualifyUnhashed(DEFINITIONS, name);
    var api := Api(name, Obj([Member(DEFINITIONS, Obj([Member(d, j)]))]));
    RenamedSingle(d, j, name);
    RenamedSingle(DEFINITIONS, Obj([Member(d, j)]), name);
    var k, v := Qualify(d, name), Renamed(j, name);
    GetSingle(DEFINITIONS, Obj([Member(k, v)]), DEFINITIONS);
    MergedSingle(name, k, v);
    assert AllDefinitions([api]) == [Prefixed([Member(k, v)], name)];
  }

  lemma RenamedSingle(k: Text, v: Json, api: Text)
    ensures RenamedMembers([Member(k, v)], api) == [Member(Qualify(k, api), Renamed(v, api))]
  {
  }

  lemma MergedSingle(name: Text, k: Text, v: Json)
    ensures MergeAll([Prefixed([Member(k, v)], name)]) == [Member(name + k, v)]
  {
    var entries := Prefixed([Member(k, v)], name);
    assert entries == [Member(name + k, v)];
    assert [entries][..0] == [] && [] + entries == entries;
    UpdateFresh([], entries);
  }

  /** In that specification the reference resolves; in the final document it still does only when
      it is a definition reference in the sense above. */
  lemma NestReference(c: Configuration, name: Text, t: Text)
    requires Replace.Clean(name) && PointerSafe(name) && name != [] && Replace.NoSplitPair(t)
    ensures var apis := [NestApi(name, DecodedAll(Tokens(t)))];
      ResolvesIn(apis, 0, name, MARKER + t) && (KeepsTarget(c, apis, 0, MARKER + t) ==> IsDefinitionRef(MARKER + t))
  {
    var keys := DecodedAll(Tokens(t));
    var apis := [NestApi(name, keys)];
    TokensNoSplit(t);
    NestApiValid(name, keys);
    NestResolves(keys, t);
    if KeepsTarget(c, apis, 0, MARKER + t) {
      QualifyAllTail(keys, name);
      NestKeepsNames(c, MergeAll(AllDefinitions(apis)), FinalPaths(apis), name, t);
      NamesAgreeExactly(t, name);
    }
  }

  lemma NestResolves(keys: seq<Text>, t: Text)
    requires keys == DecodedAll(Tokens(t))
    ensures Resolve(Nest([DEFINITIONS] + keys), MARKER + t) == Some(Null)
  {
    ResolveDefinition(Nest([DEFINITIONS] + keys), t);
    WalkNest([DEFINITIONS] + keys, [DEFINITIONS] + keys);
  }

  lemma NestKeepsNames(c: Configuration, definitions: seq<Member>, paths: seq<Member>, name: Text, t: Text)
    requires PointerSafe(name) && name != []
    requires var wanted := QualifyAll(DecodedAll(Tokens(t)), name);
      definitions == [Member(name + wanted[0], Nest(wanted[1..]))]
    requires Resolve(Document(c, definitions, paths), Qualify(MARKER + t, name)) == Some(Null)
    ensures NamesAgree(t, name)
  {
    var got := DecodedAll(Tokens(Qualify(t, name)));
    var wanted := QualifyAll(DecodedAll(Tokens(t)), name);
    RenamedRefWalk(Document(c, definitions, paths), name, t);
    NamesAgreeExactly(t, name);
    NestLookup(c, definitions, paths, name + wanted[0], wanted[1..], name + got[0], got[1..]);
    PrefixInjective(name, got[0], wanted[0]);
    SameHeadAndTail(got, wanted);
  }

  lemma SameHeadAndTail(a: seq<Text>, b: seq<Text>)
    requires a != [] && b != [] && a[0] == b[0] && a[1..] == b[1..]
    ensures a == b
  {
    assert a == [a[0]] + a[1..] && b == [b[0]] + b[1..];
  }

  /** Where a renamed reference with the marker at its head leads. */
  lemma RenamedRefWalk(doc: Json, name: Text, t: Text)
    requires PointerSafe(name)
    ensures var got := DecodedAll(Tokens(Qualify(t, name)));
      Resolve(doc, Qualify(MARKER + t, name)) == Walk(doc, [DEFINITIONS, name + got[0]] + got[1..])
  {
    var u := Qualify(t, name);
    var got := DecodedAll(Tokens(u));
    QualifyMarked(t, name);
    ConcatAssociative(MARKER, name, u);
    PrefixedTokens(name, u);
    ResolveName(doc, name + u, name + got[0], got[1..]);
  }

  lemma NestLookup(c: Configuration, definitions: seq<Member>, paths: seq<Member>, k: Text, ks: seq<Text>,
                   d: Text, ds: seq<Text>)
    requires definitions == [Member(k, Nest(ks))] && |ks| == |ds|
    ensures Walk(Document(c, definitions, paths), [DEFINITIONS, d] + ds)
         == if k == d && ks == ds then Some(Null) else None
  {
    WalkTwo(Document(c, definitions, paths), DEFINITIONS, d, ds);
    DocumentDefinitions(c, definitions, paths);
    WalkNest(ks, ds);
    assert definitions[1..] == [] && Get(definitions[1..], d) == None;
  }

  lemma {:induction false} DecodedNoSplit(t: Text)
    requires Replace.NoSplitPair(t)
    ensures Replace.NoSplitPair(Decoded(t))
    ensures Decoded(t) != [] ==> t != [] && (Decoded(t)[0] == t[0] || !IsLow(Decoded(t)[0]))
    decreases |t|
  {
    if t != [] {
      if |t| > 1 && t[0] == TILDE && (t[1] == '1' as int || t[1] == '0' as int) {
        DecodedNoSplit(t[2..]);
      } else {
        DecodedNoSplit(t[1..]);
      }
    }
  }

  lemma {:induction false} TokensNoSplit(t: Text)
    requires Replace.NoSplitPair(t)
    ensures forall k :: 0 <= k < |Tokens(t)| ==> Replace.NoSplitPair(Decoded(Tokens(t)[k]))
    decreases |t|
  {
    var b := Before(t, SLASH);
    DecodedNoSplit(b);
    if |b| < |t| {
      TokensNoSplit(t[|b| + 1..]);
    }
  }

  /** The definition references of `IsDefinitionRef` are exactly the references with the marker at
      their head that the rename preserves, wherever they resolve and no definitions clash. */
  lemma DefinitionRefExactly(c: Configuration, name: Text, t: Text)
    requires Replace.Clean(name) && PointerSafe(name) && name != [] && Replace.NoSplitPair(t)
    ensures IsDefinitionRef(MARKER + t) <==> AlwaysKept(c, name, MARKER + t)
  {
    if IsDefinitionRef(MARKER + t) {
      forall apis: seq<Api>, i: nat | ResolvesIn(apis, i, name, MARKER + t)
        ensures KeepsTarget(c, apis, i, MARKER + t)
      {
        ReferencePreservedWithoutClash(c, apis, i, MARKER + t);
      }
    } else {
      NestReference(c, name, t);
      assert ResolvesIn([NestApi(name, DecodedAll(Tokens(t)))], 0, name, MARKER + t);
    }
  }

  // ---------- names of definitions ----------

  /** A name as a pointer token (section 3 of RFC 6901). */
  function Encoded(d: Text): Text {
    if d == [] then []
    else
      (if d[0] == TILDE then [TILDE, '0' as int] else if d[0] == SLASH then [TILDE, '1' as int] else [d[0]]) +
      Encoded(d[1..])
  }

  lemma {:induction false} DecodedEncoded(d: Text)
    ensures Decoded(Encoded(d)) == d && SLASH !in Encoded(d)
  {
    if d != [] {
      DecodedEncoded(d[1..]);
      var e := Encoded(d);
      if d[0] == TILDE || d[0] == SLASH {
        assert e[0] == TILDE && e[2..] == Encoded(d[1..]);
      } else {
        assert e[0] == d[0] && e[1..] == Encoded(d[1..]);
      }
      assert d == [d[0]] + d[1..];
    }
  }

  lemma {:induction false} EncodedNoSplit(d: Text)
    requires Replace.NoSplitPair(d)
    ensures Replace.NoSplitPair(Encoded(d))
    ensures Encoded(d) != [] ==> d != [] && (Encoded(d)[0] == d[0] || !IsLow(Encoded(d)[0]))
  {
    if d != [] {
      EncodedNoSplit(d[1..]);
    }
  }

  lemma EncodedTokens(d: Text)
    ensures DecodedAll(Tokens(Encoded(d))) == [d]
    ensures IsDefinitionRef(MARKER + Encoded(d)) <==> Unmarked(d)
  {
    var e := Encoded(d);
    DecodedEncoded(d);
    BeforeAll(e, SLASH);
    assert Tokens(e) == [e];
    UnslashedUnmarked(e);
    DefinitionRefOf(e);
    assert DecodedAll([e]) == [d] && [d][0] == d;
  }

  /** The pointer with these names. */
  function Pointer(names: seq<Text>): Text
    requires names != []
  {
    if |names| == 1 then Encoded(names[0]) else Encoded(names[0]) + [SLASH] + Pointer(names[1..])
  }

  lemma {:induction false} PointerNames(names: seq<Text>)
    requires names != []
    ensures DecodedAll(Tokens(Pointer(names))) == names
  {
    DecodedEncoded(names[0]);
    if |names| == 1 {
      EncodedTokens(names[0]);
      assert names == [names[0]];
    } else {
      PointerNames(names[1..]);
      DecodedFirst(Encoded(names[0]), Pointer(names[1..]));
    }
  }

  lemma DecodedFirst(a: Text, t: Text)
    requires SLASH !in a
    ensures DecodedAll(Tokens(a + [SLASH] + t)) == [Decoded(a)] + DecodedAll(Tokens(t))
  {
    FirstToken(a, t);
  }

  /** Every place of a document has a reference that leads to it, and only texts with `#/` in front
      lead anywhere. */
  lemma PointerResolves(doc: Json, names: seq<Text>)
    requires names != []
    ensures Resolve(doc, ['#' as int, SLASH] + Pointer(names)) == Walk(doc, names)
    ensures forall ref :: Resolve(doc, ref).Some? ==> ['#' as int, SLASH] <= ref
  {
    PointerNames(names);
    var ref := ['#' as int, SLASH] + Pointer(names);
    assert ref[2..] == Pointer(names);
  }

  lemma UnslashedUnmarked(t: Text)
    requires SLASH !in t
    ensures Unmarked(t)
  {
    MarkerFacts();
    MarkerSlash();
    forall i | 0 <= i <= |t| ensures !(MARKER <= t[i..]) {
      assert |t[i..]| > 1 ==> t[i..][1] in t;
    }
  }

  lemma MarkerSlash()
    ensures |MARKER| == 14 && MARKER[1] == SLASH
  {
    MarkerSplit();
  }

  /** Exactly the definitions without the marker in their names can still be referred to: in every
      aggregation, the reference to such a definition reaches its renamed copy; for any other name
      it fails to in some. */
  lemma DefinitionNameExactly(c: Configuration, name: Text, d: Text)
    requires Replace.Clean(name) && PointerSafe(name) && name != [] && Replace.NoSplitPair(d)
    ensures Unmarked(d) <==> AlwaysKept(c, name, MARKER + Encoded(d))
  {
    EncodedNoSplit(d);
    EncodedTokens(d);
    DefinitionRefExactly(c, name, Encoded(d));
  }

  /** The encoded name refers to the definition with this name. */
  lemma EncodedResolves(spec: Json, d: Text)
    requires IsSpecification(spec)
    ensures Resolve(spec, MARKER + Encoded(d)) == Get(Section(spec, DEFINITIONS), d)
  {
    EncodedTokens(d);
    ResolveDefinition(spec, Encoded(d));
    assert [DEFINITIONS] + [d] == [DEFINITIONS, d] + [];
    WalkTwo(spec, DEFINITIONS, d, []);
  }

  // ---------- which service names keep references ----------

  /** Exactly the pointer-safe names keep every definition reference; a slash or an escape in a
      service's name breaks one already in a specification with a single definition. */
  lemma PointerSafeKeepsExactly(c: Configuration, name: Text)
    requires Replace.Clean(name)
    ensures PointerSafe(name) <==> forall ref :: IsDefinitionRef(ref) ==> AlwaysKept(c, name, ref)
  {
    if PointerSafe(name) {
      forall ref | IsDefinitionRef(ref) ensures AlwaysKept(c, name, ref) {
        forall apis: seq<Api>, i: nat | ResolvesIn(apis, i, name, ref) ensures KeepsTarget(c, apis, i, ref) {
          ReferencePreservedWithoutClash(c, apis, i, ref);
        }
      }
    } else {
      var t: Text := if SLASH !in name && NoEscape(name) then ['1' as int] else [];
      UnsafeName(name, t);
      ShortName(t);
      UnsafeReference(c, name, t);
    }
  }

  lemma ShortName(t: Text)
    requires t == [] || t == ['1' as int]
    ensures DecodedAll(Tokens(t)) == [t] && IsDefinitionRef(MARKER + t) && Unmarked(t) && Replace.NoSplitPair(t)
  {
    DecodedDigit();
    BeforeAll(t, SLASH);
    assert Tokens(t) == [t];
    UnslashedUnmarked(t);
    DecodedSingle(t);
    DefinitionRefOf(t);
  }

  lemma DecodedDigit()
    ensures Decoded([]) == [] && Decoded(['1' as int]) == ['1' as int]
  {
    assert ['1' as int][1..] == [];
  }

  lemma DecodedSingle(t: Text)
    ensures DecodedAll([t]) == [Decoded(t)] && [t][0] == t
  {
  }

  lemma UnsafeReference(c: Configuration, name: Text, t: Text)
    requires Replace.Clean(name) && !PrefixesToken(name, t)
    requires DecodedAll(Tokens(t)) == [t] && IsDefinitionRef(MARKER + t) && Unmarked(t) && Replace.NoSplitPair(t)
    ensures !AlwaysKept(c, name, MARKER + t)
  {
    var apis := [NestApi(name, [t])];
    NestApiValid(name, [t]);
    NestResolves([t], t);
    QualifyUnmarked(t, name);
    NestOfNothing(t, name);
    LostInSingle(c, MergeAll(AllDefinitions(apis)), FinalPaths(apis), name, t);
    NotKept(c, apis, name, MARKER + t);
  }

  lemma NotKept(c: Configuration, apis: seq<Api>, name: Text, ref: Text)
    requires ResolvesIn(apis, 0, name, ref) && Resolve(FinalDocument(c, apis), Qualify(ref, name)) == None
    ensures !AlwaysKept(c, name, ref)
  {
    assert !KeepsTarget(c, apis, 0, ref);
  }

  lemma NestOfNothing(t: Text, api: Text)
    ensures Nest(QualifyAll([t][1..], api)) == Null
  {
  }

  /** Beside one definition the reference with the prefixed name leads nowhere. */
  lemma LostInSingle(c: Configuration, definitions: seq<Member>, paths: seq<Member>, name: Text, t: Text)
    requires definitions == [Member(name + t, Null)] && !PrefixesToken(name, t)
    requires DecodedAll(Tokens(t)) == [t] && IsDefinitionRef(MARKER + t)
    ensures Resolve(Document(c, definitions, paths), Qualify(MARKER + t, name)) == None
  {
    var doc, es := Document(c, definitions, paths), DecodedAll(Tokens(name + t));
    QualifiedRef(name, MARKER + t);
    assert (MARKER + t)[|MARKER|..] == t;
    assert [name + [t][0]] + [t][1..] == [name + t];
    ResolveDefinition(doc, name + t);
    DocumentDefinitions(c, definitions, paths);
    WalkFrom(doc, DEFINITIONS, es);
    WalkSingle(name + t, es);
  }

  lemma WalkFrom(doc: Json, token: Text, rest: seq<Text>)
    ensures Walk(doc, [token] + rest) ==
      if Child(doc, token).None? then None else Walk(Child(doc, token).value, rest)
  {
    assert ([token] + rest)[1..] == rest;
  }

  /** Below an object with one empty entry there is nothing but this entry. */
  lemma WalkSingle(k: Text, tokens: seq<Text>)
    requires tokens != [] && tokens != [k]
    ensures Walk(Obj([Member(k, Null)]), tokens) == None
  {
    GetSingle(k, Null, tokens[0]);
    if tokens[0] == k {
      assert tokens == [k] + tokens[1..];
      assert Child(Null, tokens[1..][0]) == None;
    }
  }

  // ---------- which service names can clash ----------

  function NamesOf(apis: seq<Api>): (r: seq<Text>)
    ensures |r| == |apis| && forall i :: 0 <= i < |r| ==> r[i] == apis[i].name
  {
    seq(|apis|, i requires 0 <= i < |apis| => apis[i].name)
  }

  ghost predicate PrefixFreeNames(names: seq<Text>) {
    forall i, j :: 0 <= i < |names| && 0 <= j < |names| && i != j ==> !(names[i] <= names[j])
  }

  /** Names of services as they stand in a path, no two of them the same. */
  ghost predicate PlainNames(names: seq<Text>) {
    (forall i :: 0 <= i < |names| ==>
      Replace.Clean(names[i]) && SLASH !in names[i] && Replace.NoSplitPair(names[i])) &&
    forall i, j :: 0 <= i < j < |names| ==> names[i] != names[j]
  }

  /** A service with one definition. */
  function SingleApi(name: Text, d: Text, j: Json): Api {
    Api(name, Obj([Member(DEFINITIONS, Obj([Member(d, j)]))]))
  }

  /** Two of the services have one definition each, with names that merge to one. */
  function ClashApi(names: seq<Text>, i: nat, j: nat, rest: Text, k: nat): Api
    requires k < |names|
  {
    if k == i then SingleApi(names[k], rest + ['a' as int], Null)
    else if k == j then SingleApi(names[k], ['a' as int], Bool(true))
    else Api(names[k], Obj([]))
  }

  function ClashApis(names: seq<Text>, i: nat, j: nat, rest: Text): (r: seq<Api>)
    ensures |r| == |names|
    ensures forall k :: 0 <= k < |r| ==> r[k] == ClashApi(names, i, j, rest, k)
  {
    seq(|names|, k requires 0 <= k < |names| => ClashApi(names, i, j, rest, k))
  }

  lemma SingleIsSpecification(name: Text, d: Text, j: Json)
    requires WellFormed(j) && Replace.NoSplitPair(d)
    ensures IsSpecification(SingleApi(name, d, j).spec)
    ensures Get(Section(SingleApi(name, d, j).spec, DEFINITIONS), d) == Some(j)
  {
    NameFacts();
    DefinitionsPlain();
    assert WellFormedMember(Member(d, j));
    OneSection(DEFINITIONS, Obj([Member(d, j)]), PATHS);
    GetSingle(DEFINITIONS, Obj([Member(d, j)]), DEFINITIONS);
    GetSingle(d, j, d);
  }

  lemma ClashApisValid(names: seq<Text>, i: nat, j: nat, rest: Text)
    requires PlainNames(names) && Replace.NoSplitPair(rest + ['a' as int])
    ensures ValidApis(ClashApis(names, i, j, rest)) && NamesOf(ClashApis(names, i, j, rest)) == names
  {
    var apis := ClashApis(names, i, j, rest);
    forall k | 0 <= k < |apis| ensures IsSpecification(apis[k].spec) {
      if k == i {
        SingleIsSpecification(names[k], rest + ['a' as int], Null);
      } else if k == j {
        SingleIsSpecification(names[k], ['a' as int], Bool(true));
      }
    }
  }

  /** The two definitions merge to one name. */
  lemma SingleDefinitionGet(api: Api, name: Text, d: Text, j: Json)
    requires api == SingleApi(name, d, j) && WellFormed(j) && Replace.NoSplitPair(d) && SLASH !in d
    ensures Get(ApiDefinitions(api), name + d) == Some(Renamed(j, name))
  {
    SingleIsSpecification(name, d, j);
    UnslashedUnmarked(d);
    ApiDefinitionGet(api, d);
  }

  lemma PrefixedNamesClash(names: seq<Text>, i: nat, j: nat)
    requires PlainNames(names) && i < |names| && j < |names| && i != j && names[i] <= names[j]
    ensures var rest := names[j][|names[i]|..];
      ValidApis(ClashApis(names, i, j, rest)) && NamesOf(ClashApis(names, i, j, rest)) == names &&
      !NothingLost(AllDefinitions(ClashApis(names, i, j, rest)))
  {
    var rest := names[j][|names[i]|..];
    var letter: Text := ['a' as int];
    SuffixNoSplit(names[j], |names[i]|);
    ClashApisValid(names, i, j, rest);
    var apis := ClashApis(names, i, j, rest);
    SectionsDistinct(apis);
    SingleDefinitionGet(apis[i], names[i], rest + letter, Null);
    SingleDefinitionGet(apis[j], names[j], letter, Bool(true));
    RegroupPrefix(names[i], names[j], letter);
    assert AllDefinitions(apis)[i] == ApiDefinitions(apis[i]) && AllDefinitions(apis)[j] == ApiDefinitions(apis[j]);
    ClashLoses(AllDefinitions(apis), i, j, names[j] + letter);
  }

  lemma RegroupPrefix(m: Text, n: Text, t: Text)
    requires m <= n
    ensures m + (n[|m|..] + t) == n + t
  {
  }

  lemma ClashLoses(ds: seq<seq<Member>>, i: nat, j: nat, k: Text)
    requires i < |ds| && j < |ds|
    requires Get(ds[i], k).Some? && Get(ds[j], k).Some? && Get(ds[i], k) != Get(ds[j], k)
    ensures !NothingLost(ds)
  {
    var merged := Get(MergeAll(ds), k);
    assert merged != Get(ds[i], k) || merged != Get(ds[j], k);
  }

  lemma SuffixNoSplit(t: Text, n: nat)
    requires Replace.NoSplitPair(t) && n <= |t|
    ensures Replace.NoSplitPair(t[n..] + ['a' as int])
  {
    var u := t[n..] + ['a' as int];
    forall i | 0 <= i < |u| - 1 ensures !(IsHigh(u[i]) && IsLow(u[i + 1])) {
      assert u[i] == t[n + i];
      assert i + 1 < |t[n..]| ==> u[i + 1] == t[n + i + 1];
    }
  }

  /** If the services have these names, nothing of their definitions is lost. */
  ghost predicate KeepsDefinitions(names: seq<Text>, apis: seq<Api>) {
    ValidApis(apis) && NamesOf(apis) == names ==> NothingLost(AllDefinitions(apis))
  }

  /** Exactly the services of which none begins another keep all their definitions, whatever these
      are. */
  lemma NamesNeverClashExactly(names: seq<Text>)
    requires PlainNames(names)
    ensures PrefixFreeNames(names) <==> forall apis :: KeepsDefinitions(names, apis)
  {
    if PrefixFreeNames(names) {
      forall apis: seq<Api> ensures KeepsDefinitions(names, apis) {
        if ValidApis(apis) && NamesOf(apis) == names {
          NamesPrefixFree(apis);
          PrefixFreeNeverClashes(apis);
          SectionsDistinct(apis);
          MergeExactly(AllDefinitions(apis));
        }
      }
    } else {
      var i, j :| 0 <= i < |names| && 0 <= j < |names| && i != j && names[i] <= names[j];
      PrefixedNamesClash(names, i, j);
      assert !KeepsDefinitions(names, ClashApis(names, i, j, names[j][|names[i]|..]));
    }
  }

  lemma NamesPrefixFree(apis: seq<Api>)
    requires PrefixFreeNames(NamesOf(apis))
    ensures PrefixFree(apis)
  {
    var names := NamesOf(apis);
    forall i, j | 0 <= i < |apis| && 0 <= j < |apis| && i != j ensures !(apis[i].name <= apis[j].name) {
      assert names[i] == apis[i].name && names[j] == apis[j].name;
    }
  }

  // ---------- other references ----------

  predicate IsDocumentKey(k: Text) {
    k == SWAGGER || k == INFO || k == HOST || k == BASE_PATH || k == CONSUMES || k == PRODUCES ||
    k == DEFINITIONS || k == PATHS
  }

  ghost predicate IsLocal(ref: Text) {
    |ref| >= 2 && ref[0] == '#' as int && ref[1] == SLASH
  }

  /** The rename keeps a reference inside or outside the document, and its first name. */
  lemma LocalQualified(ref: Text, api: Text)
    ensures IsLocal(Qualify(ref, api)) <==> IsLocal(ref)
    ensures IsLocal(ref) ==> Tokens(Qualify(ref, api)[2..])[0] == Tokens(ref[2..])[0]
  {
    MarkerFacts();
    var r := Qualify(ref, api);
    if MARKER <= ref {
      var t := ref[|MARKER|..];
      assert ref == MARKER + t;
      QualifyMarked(t, api);
      ConcatAssociative(MARKER, api, Qualify(t, api));
      FirstIsDefinitions(t);
      FirstIsDefinitions(api + Qualify(t, api));
    } else if ref != [] {
      assert r == [ref[0]] + Qualify(ref[1..], api);
      QualifiedHead(ref[1..], api);
      if IsLocal(ref) {
        assert ref[1..][1..] == ref[2..] && r[2..] == Qualify(ref[2..], api);
        OperationIds.BeforeQualified(ref[2..], api);
      }
    }
  }

  lemma QualifiedHead(t: Text, api: Text)
    ensures Qualify(t, api) == [] <==> t == []
    ensures t != [] ==> Qualify(t, api)[0] == t[0]
    ensures t != [] && t[0] == SLASH ==> Qualify(t, api) == [SLASH] + Qualify(t[1..], api)
  {
    MarkerFacts();
  }

  lemma FirstIsDefinitions(t: Text)
    ensures IsLocal(MARKER + t) && Tokens((MARKER + t)[2..])[0] == DEFINITIONS
  {
    MarkerSplit();
    NoSlashInDefinitions();
    assert (MARKER + t)[2..] == DEFINITIONS + [SLASH] + t;
    FirstToken(DEFINITIONS, t);
  }

  /** A local reference to anything but the sections of the final document dangles there. */
  lemma OtherSectionDangles(c: Configuration, apis: seq<Api>, i: nat, ref: Text)
    requires ValidApis(apis) && Rewritable(apis) && i < |apis|
    requires IsLocal(ref) && !IsDocumentKey(Decoded(Tokens(ref[2..])[0]))
    ensures Resolve(FinalDocument(c, apis), Qualify(ref, apis[i].name)) == None
  {
    LocalQualified(ref, apis[i].name);
    LostWithFirstName(FinalDocument(c, apis), Qualify(ref, apis[i].name));
    DocumentLacks(c, MergeAll(AllDefinitions(apis)), FinalPaths(apis), Decoded(Tokens(ref[2..])[0]));
  }

  lemma LostWithFirstName(doc: Json, ref: Text)
    requires IsLocal(ref)
    ensures Child(doc, Decoded(Tokens(ref[2..])[0])).None? ==> Resolve(doc, ref) == None
  {
  }

  lemma DocumentLacks(c: Configuration, definitions: seq<Member>, paths: seq<Member>, k: Text)
    requires !IsDocumentKey(k)
    ensures Child(Document(c, definitions, paths), k) == None
  {
    GetNone(Document(c, definitions, paths).members, k);
  }

  /** So do the references to the shared parameters and responses of a service. */
  lemma ParametersAndResponsesDangle(c: Configuration, apis: seq<Api>, i: nat, t: Text)
    requires ValidApis(apis) && Rewritable(apis) && i < |apis|
    ensures Resolve(FinalDocument(c, apis), Qualify(Lit("#/parameters/") + t, apis[i].name)) == None
    ensures Resolve(FinalDocument(c, apis), Qualify(Lit("#/responses/") + t, apis[i].name)) == None
  {
    SharedSections();
    SectionDangles(c, apis, i, PARAMETERS, t);
    SectionDangles(c, apis, i, RESPONSES, t);
  }

  const PARAMETERS: Text := Lit("parameters")
  const RESPONSES: Text := Lit("responses")

  lemma SharedSections()
    ensures SLASH !in PARAMETERS && TILDE !in PARAMETERS && !IsDocumentKey(PARAMETERS)
    ensures SLASH !in RESPONSES && TILDE !in RESPONSES && !IsDocumentKey(RESPONSES)
    ensures Lit("#/parameters/") == ['#' as int, SLASH] + PARAMETERS + [SLASH]
    ensures Lit("#/responses/") == ['#' as int, SLASH] + RESPONSES + [SLASH]
  {
    assert PARAMETERS == ['p' as int, 'a' as int, 'r' as int, 'a' as int, 'm' as int, 'e' as int, 't' as int,
                          'e' as int, 'r' as int, 's' as int];
    assert RESPONSES == ['r' as int, 'e' as int, 's' as int, 'p' as int, 'o' as int, 'n' as int, 's' as int,
                         'e' as int, 's' as int];
    if IsDocumentKey(PARAMETERS) {
      DocumentKeyLetters(PARAMETERS);
    } else if IsDocumentKey(RESPONSES) {
      DocumentKeyLetters(RESPONSES);
    }
  }

  lemma DocumentKeyLetters(k: Text)
    requires IsDocumentKey(k)
    ensures k != [] && k[0] != 'r' as int && |k| != 10
  {
    assert |SWAGGER| == 7 && |INFO| == 4 && |HOST| == 4 && |BASE_PATH| == 8 && |CONSUMES| == 8 && |PRODUCES| == 8;
    assert SWAGGER[0] == 's' as int && INFO[0] == 'i' as int && HOST[0] == 'h' as int && BASE_PATH[0] == 'b' as int;
    assert CONSUMES[0] == 'c' as int && PRODUCES[0] == 'p' as int;
    assert DEFINITIONS[0] == 'd' as int && PATHS[0] == 'p' as int;
  }

  /** The first name of a reference into a section. */
  lemma SectionReference(section: Text, t: Text)
    requires SLASH !in section && TILDE !in section
    ensures var ref := ['#' as int, SLASH] + section + [SLASH] + t;
      IsLocal(ref) && Decoded(Tokens(ref[2..])[0]) == section
  {
    var ref := ['#' as int, SLASH] + section + [SLASH] + t;
    assert ref[2..] == section + [SLASH] + t;
    FirstToken(section, t);
    DecodedPrefixed(section, []);
    assert section + [] == section && section + Decoded([]) == section;
  }

  lemma SectionDangles(c: Configuration, apis: seq<Api>, i: nat, section: Text, t: Text)
    requires ValidApis(apis) && Rewritable(apis) && i < |apis|
    requires SLASH !in section && TILDE !in section && !IsDocumentKey(section)
    ensures Resolve(FinalDocument(c, apis), Qualify(['#' as int, SLASH] + section + [SLASH] + t, apis[i].name)) == None
  {
    SectionReference(section, t);
    OtherSectionDangles(c, apis, i, ['#' as int, SLASH] + section + [SLASH] + t);
  }

  // ---------- everything reachable ----------

  /** The reference strings of a tree: the values of its `$ref` keys. */
  function RefsIn(j: Json): set<Text>
    decreases j, 1
  {
    match j
    case Arr(elems) => RefsInElems(elems)
    case Obj(members) => RefsInMembers(members)
    case _ => {}
  }

  function RefsInElems(elems: seq<Json>): set<Text>
    decreases elems, 0
  {
    if elems == [] then {} else RefsIn(elems[0]) + RefsInElems(elems[1..])
  }

  function RefsInMembers(members: seq<Member>): set<Text>
    decreases members, 0
  {
    if members == [] then {}
    else
      (if members[0].key == REF && members[0].value.Str? then {members[0].value.s} else RefsIn(members[0].value)) +
      RefsInMembers(members[1..])
  }

  lemma {:induction false} NoLeadingZero(n: nat)
    ensures Decimal(n)[0] == '0' as int <==> n == 0
  {
    if n >= 10 {
      NoLeadingZero(n / 10);
    }
  }

  /** The decimal spelling of a place in an array leads to the element there. */
  lemma ElementAt(elems: seq<Json>, n: nat)
    ensures Child(Arr(elems), Decimal(n)) == if n < |elems| then Some(elems[n]) else None
  {
    NoLeadingZero(n);
    Keys.DecimalDigits(n);
    assert Decimal(0) == ['0' as int];
  }

  /** An index is the decimal spelling of a number. */
  lemma IndexExactly(t: Text, n: nat)
    ensures IndexOf(t) == Some(n) <==> t == Decimal(n)
  {
    NoLeadingZero(n);
    Keys.DecimalDigits(n);
    assert Decimal(0) == ['0' as int];
    if IndexOf(t) == Some(n) {
      SpelledDecimal(t);
    }
  }

  lemma {:induction false} SpelledDecimal(t: Text)
    requires t != [] && Digits(t) == |t| && (|t| > 1 ==> t[0] != '0' as int)
    ensures Decimal(DigitsValue(t)) == t
    ensures t[0] != '0' as int ==> DigitsValue(t) > 0
  {
    DigitsPrefix(t);
    var before, d := t[..|t| - 1], t[|t| - 1] - '0' as int;
    assert t == before + [t[|t| - 1]];
    if before == [] {
      assert DigitsValue(before) == 0;
    } else {
      SpelledDecimal(before);
      assert (10 * DigitsValue(before) + d) / 10 == DigitsValue(before);
    }
  }

  lemma {:induction false} RefOfElems(elems: seq<Json>, r: Text) returns (n: nat)
    requires r in RefsInElems(elems)
    ensures n < |elems| && r in RefsIn(elems[n])
  {
    if r in RefsIn(elems[0]) {
      n := 0;
    } else {
      n := RefOfElems(elems[1..], r);
      n := n + 1;
    }
  }

  lemma {:induction false} RefOfMembers(members: seq<Member>, r: Text) returns (n: nat)
    requires r in RefsInMembers(members)
    ensures n < |members| && (members[n] == Member(REF, Str(r)) || r in RefsIn(members[n].value))
  {
    var m := members[0];
    if m == Member(REF, Str(r)) || r in RefsIn(m.value) {
      n := 0;
    } else {
      n := RefOfMembers(members[1..], r);
      n := n + 1;
    }
  }

  lemma {:induction false} RefPath(j: Json, r: Text) returns (tokens: seq<Text>)
    requires WellFormed(j) && r in RefsIn(j)
    ensures Walk(j, tokens + [REF]) == Some(Str(r))
    decreases j
  {
    if j.Arr? {
      var n := RefOfElems(j.elems, r);
      var rest := RefPath(j.elems[n], r);
      ElementAt(j.elems, n);
      tokens := [Decimal(n)] + rest;
      WalkOn(j, Decimal(n), rest + [REF]);
      assert tokens + [REF] == [Decimal(n)] + (rest + [REF]);
    } else {
      var n := RefOfMembers(j.members, r);
      var m := j.members[n];
      GetAt(j.members, n);
      if m == Member(REF, Str(r)) {
        tokens := [];
        assert tokens + [REF] == [REF] + [];
        WalkOn(j, REF, []);
      } else {
        assert WellFormedMember(m);
        var rest := RefPath(m.value, r);
        tokens := [m.key] + rest;
        WalkOn(j, m.key, rest + [REF]);
        assert tokens + [REF] == [m.key] + (rest + [REF]);
      }
    }
  }

  lemma WalkOn(j: Json, token: Text, rest: seq<Text>)
    ensures Walk(j, [token] + rest) ==
      match Child(j, token) case Some(v) => Walk(v, rest) case None => None
  {
    assert ([token] + rest)[1..] == rest;
  }

  lemma {:induction false} RefOfPath(j: Json, tokens: seq<Text>, r: Text)
    requires Walk(j, tokens + [REF]) == Some(Str(r))
    ensures r in RefsIn(j)
    decreases |tokens|
  {
    if tokens == [] {
      assert tokens + [REF] == [REF] + [];
      WalkOn(j, REF, []);
      RefIsNoIndex();
      var n := GetMember(j.members, REF);
      RefOfMember(j.members, n, r);
    } else {
      assert tokens + [REF] == [tokens[0]] + (tokens[1..] + [REF]);
      WalkOn(j, tokens[0], tokens[1..] + [REF]);
      var v := Child(j, tokens[0]).value;
      RefOfPath(v, tokens[1..], r);
      assert [tokens[0]] == [tokens[0]] + [];
      WalkOn(j, tokens[0], []);
      RefsOfTarget(j, [tokens[0]]);
    }
  }

  lemma RefIsNoIndex()
    ensures IndexOf(REF) == None
  {
    assert REF[0] == '$' as int;
  }

  lemma {:induction false} RefOfMember(members: seq<Member>, n: nat, r: Text)
    requires n < |members| && members[n] == Member(REF, Str(r))
    ensures r in RefsInMembers(members)
  {
    if n > 0 {
      RefOfMember(members[1..], n - 1, r);
    }
  }

  /** The references of a tree are what a pointer with the last name `$ref` reaches. */
  lemma RefsExactly(j: Json, r: Text)
    requires WellFormed(j)
    ensures r in RefsIn(j) <==> exists tokens :: Walk(j, tokens + [REF]) == Some(Str(r))
  {
    if r in RefsIn(j) {
      var tokens := RefPath(j, r);
    }
    if tokens :| Walk(j, tokens + [REF]) == Some(Str(r)) {
      RefOfPath(j, tokens, r);
    }
  }

  ghost function QualifySet(refs: set<Text>, api: Text): set<Text> {
    set r | r in refs :: Qualify(r, api)
  }

  lemma RefUnhashed(api: Text)
    ensures Qualify(REF, api) == REF && REF != OPERATION_ID
    ensures forall k :: Qualify(k, api) == REF ==> k == REF
  {
    assert REF == ['$' as int, 'r' as int, 'e' as int, 'f' as int];
    QualifyUnhashed(REF, api);
    forall k | Qualify(k, api) == REF ensures k == REF {
      QualifyInjective(k, REF, api);
    }
    assert |OPERATION_ID| == 11;
  }

  lemma QualifyUnion(a: set<Text>, b: set<Text>, api: Text)
    ensures QualifySet(a + b, api) == QualifySet(a, api) + QualifySet(b, api)
  {
  }

  /** The references of the renamed tree are the renamed references. */
  lemma {:induction false} RefsRenamed(j: Json, api: Text)
    ensures RefsIn(Renamed(j, api)) == QualifySet(RefsIn(j), api)
    decreases j, 1
  {
    match j
    case Arr(elems) => RefsRenamedElems(elems, api);
    case Obj(members) => RefsRenamedMembers(members, api);
    case _ =>
  }

  lemma {:induction false} RefsRenamedElems(elems: seq<Json>, api: Text)
    ensures RefsInElems(RenamedElems(elems, api)) == QualifySet(RefsInElems(elems), api)
    decreases elems, 0
  {
    if elems != [] {
      RefsRenamed(elems[0], api);
      RefsRenamedElems(elems[1..], api);
      QualifyUnion(RefsIn(elems[0]), RefsInElems(elems[1..]), api);
    }
  }

  lemma {:induction false} RefsRenamedMembers(members: seq<Member>, api: Text)
    ensures RefsInMembers(RenamedMembers(members, api)) == QualifySet(RefsInMembers(members), api)
    decreases members, 0
  {
    if members != [] {
      RefUnhashed(api);
      var m := members[0];
      RefsRenamed(m.value, api);
      RefsRenamedMembers(members[1..], api);
      var refs := if m.key == REF && m.value.Str? then {m.value.s} else RefsIn(m.value);
      QualifyUnion(refs, RefsInMembers(members[1..]), api);
    }
  }

  lemma {:induction false} RefsOfElem(elems: seq<Json>, n: nat)
    requires n < |elems|
    ensures RefsIn(elems[n]) <= RefsInElems(elems)
  {
    if n > 0 {
      RefsOfElem(elems[1..], n - 1);
    }
  }

  lemma {:induction false} RefsOfMember(members: seq<Member>, n: nat)
    requires n < |members|
    ensures RefsIn(members[n].value) <= RefsInMembers(members)
  {
    if n > 0 {
      RefsOfMember(members[1..], n - 1);
    }
  }

  /** What a pointer reaches holds no reference its document lacks. */
  lemma {:induction false} RefsOfTarget(j: Json, tokens: seq<Text>)
    requires Walk(j, tokens).Some?
    ensures RefsIn(Walk(j, tokens).value) <= RefsIn(j)
    decreases |tokens|
  {
    if tokens != [] {
      var v := Child(j, tokens[0]).value;
      RefsOfTarget(v, tokens[1..]);
      if j.Obj? {
        var n := GetMember(j.members, tokens[0]);
        RefsOfMember(j.members, n);
      } else {
        RefsOfElem(j.elems, IndexOf(tokens[0]).value);
      }
    }
  }

  /** A chain of references from a tree: each one stands in the target of the one before. */
  ghost predicate Chain(doc: Json, j: Json, refs: seq<Text>)
    decreases |refs|
  {
    refs == [] ||
    (refs[0] in RefsIn(j) &&
     (|refs| == 1 || (Resolve(doc, refs[0]).Some? && Chain(doc, Resolve(doc, refs[0]).value, refs[1..]))))
  }

  /** A reference to another document. */
  predicate IsForeign(ref: Text) {
    ref != [] && ref[0] != '#' as int
  }

  /** The references of a specification are definition references, or lead to other documents. */
  ghost predicate OnlyDefinitionRefs(spec: Json) {
    forall r :: r in RefsIn(spec) ==> IsDefinitionRef(r) || IsForeign(r)
  }

  /** No reference of the service can land on another service's definition: names are prefix-free,
      or no definitions clash and no reference of the service dangles. */
  ghost predicate TargetsApart(apis: seq<Api>, i: nat)
    requires i < |apis|
  {
    PrefixFree(apis) ||
    (NoClash(AllDefinitions(apis)) &&
     forall r :: r in RefsIn(apis[i].spec) && IsLocal(r) ==> Resolve(apis[i].spec, r).Some?)
  }

  lemma ReferenceKept(c: Configuration, apis: seq<Api>, i: nat, r: Text)
    requires ReferencePremises(apis, i) && TargetsApart(apis, i)
    requires OnlyDefinitionRefs(apis[i].spec) && r in RefsIn(apis[i].spec)
    ensures KeepsTarget(c, apis, i, r)
  {
    if !IsLocal(r) {
      LocalQualified(r, apis[i].name);
    } else if PrefixFree(apis) {
      ReferencePreserved(c, apis, i, r);
    } else {
      ReferencePreservedWithoutClash(c, apis, i, r);
    }
  }

  /** The closure of a tree under references, forwards: every chain of the specification is a
      chain of the merged document, as long as no definitions clash. */
  lemma ChainForward(c: Configuration, apis: seq<Api>, i: nat, j: Json, refs: seq<Text>)
    requires ReferencePremises(apis, i) && NoClash(AllDefinitions(apis))
    requires OnlyDefinitionRefs(apis[i].spec) && RefsIn(j) <= RefsIn(apis[i].spec)
    requires Chain(apis[i].spec, j, refs)
    ensures Chain(FinalDocument(c, apis), Renamed(j, apis[i].name), QualifyAll(refs, apis[i].name))
  {
    forall r | r in RefsIn(apis[i].spec) && Resolve(apis[i].spec, r).Some?
      ensures IsKept(apis[i].spec, FinalDocument(c, apis), apis[i].name, r)
    {
      ReferencePreservedWithoutClash(c, apis, i, r);
    }
    ChainAhead(apis[i].spec, FinalDocument(c, apis), apis[i].name, j, refs);
  }

  lemma {:induction false} ChainAhead(spec: Json, doc: Json, name: Text, j: Json, refs: seq<Text>)
    requires forall r :: r in RefsIn(spec) && Resolve(spec, r).Some? ==> IsKept(spec, doc, name, r)
    requires RefsIn(j) <= RefsIn(spec) && Chain(spec, j, refs)
    ensures Chain(doc, Renamed(j, name), QualifyAll(refs, name))
    decreases |refs|
  {
    if refs != [] {
      RefTarget(j, name, refs[0]);
      QualifyAllTail(refs, name);
      if |refs| > 1 {
        RefsOfTarget(spec, DecodedAll(Tokens(refs[0][2..])));
        ChainAhead(spec, doc, name, Resolve(spec, refs[0]).value, refs[1..]);
      }
    }
  }

  lemma RefTarget(j: Json, api: Text, r: Text)
    requires r in RefsIn(j)
    ensures Qualify(r, api) in RefsIn(Renamed(j, api))
  {
    RefsRenamed(j, api);
    assert Qualify(r, api) in QualifySet(RefsIn(j), api);
  }

  lemma QualifyAllTail(refs: seq<Text>, api: Text)
    requires refs != []
    ensures QualifyAll(refs, api)[1..] == QualifyAll(refs[1..], api)
  {
  }

  lemma RefSource(j: Json, api: Text, merged: Text) returns (r: Text)
    requires merged in RefsIn(Renamed(j, api))
    ensures r in RefsIn(j) && Qualify(r, api) == merged
  {
    RefsRenamed(j, api);
    r :| r in RefsIn(j) && Qualify(r, api) == merged;
  }

  /** And backwards: the merged document adds none. */
  lemma ChainBackward(c: Configuration, apis: seq<Api>, i: nat, j: Json, merged: seq<Text>)
      returns (refs: seq<Text>)
    requires ReferencePremises(apis, i) && TargetsApart(apis, i)
    requires OnlyDefinitionRefs(apis[i].spec) && RefsIn(j) <= RefsIn(apis[i].spec)
    requires Chain(FinalDocument(c, apis), Renamed(j, apis[i].name), merged)
    ensures Chain(apis[i].spec, j, refs) && merged == QualifyAll(refs, apis[i].name)
  {
    forall r | r in RefsIn(apis[i].spec) ensures IsKept(apis[i].spec, FinalDocument(c, apis), apis[i].name, r) {
      ReferenceKept(c, apis, i, r);
    }
    refs := ChainBack(apis[i].spec, FinalDocument(c, apis), apis[i].name, j, merged);
  }

  lemma {:induction false} ChainBack(spec: Json, doc: Json, name: Text, j: Json, merged: seq<Text>)
      returns (refs: seq<Text>)
    requires forall r :: r in RefsIn(spec) ==> IsKept(spec, doc, name, r)
    requires RefsIn(j) <= RefsIn(spec) && Chain(doc, Renamed(j, name), merged)
    ensures Chain(spec, j, refs) && merged == QualifyAll(refs, name)
    decreases |merged|
  {
    refs := [];
    if merged != [] {
      var r := RefSource(j, name, merged[0]);
      assert merged == [merged[0]] + merged[1..];
      if |merged| > 1 {
        RefsOfTarget(spec, DecodedAll(Tokens(r[2..])));
        refs := ChainBack(spec, doc, name, Resolve(spec, r).value, merged[1..]);
      }
      ChainCons(spec, j, r, refs);
      QualifyAllCons(r, refs, name);
      refs := [r] + refs;
    }
  }

  lemma ChainCons(doc: Json, j: Json, r: Text, refs: seq<Text>)
    requires r in RefsIn(j)
    requires refs != [] ==> Resolve(doc, r).Some? && Chain(doc, Resolve(doc, r).value, refs)
    ensures Chain(doc, j, [r] + refs)
  {
    assert ([r] + refs)[1..] == refs;
  }

  lemma QualifyAllCons(r: Text, refs: seq<Text>, api: Text)
    ensures QualifyAll([r] + refs, api) == [Qualify(r, api)] + QualifyAll(refs, api)
  {
  }

  lemma {:induction false} RefsOfPut(ms: seq<Member>, k: Text, v: Json)
    requires k != REF && RefsIn(v) == {} && Get(ms, k).Some? && RefsIn(Get(ms, k).value) == {}
    ensures RefsInMembers(Put(ms, k, v)) == RefsInMembers(ms)
  {
    if ms[0].key == k {
      assert Put(ms, k, v)[1..] == ms[1..];
    } else {
      RefsOfPut(ms[1..], k, v);
      assert Put(ms, k, v)[1..] == Put(ms[1..], k, v);
    }
  }

  lemma RefsOfAction(j: Json, service: Text)
    ensures RefsIn(ActionWithId(j, service)) == RefsIn(j)
  {
    RefUnhashed([]);
    if j.Obj? && Get(j.members, OPERATION_ID).Some? {
      var id := Formatted(Get(j.members, OPERATION_ID).value);
      if id.Some? {
        RefsOfPut(j.members, OPERATION_ID, Str(service + [DOT] + id.value));
      }
    }
  }

  /** Rewriting operation ids leaves the references of a path item as they are. */
  lemma {:induction false} RefsWithIds(ms: seq<Member>, service: Text)
    ensures RefsInMembers(ItemWithIds(ms, service)) == RefsInMembers(ms)
  {
    if ms != [] {
      RefsWithIds(ms[1..], service);
      RefsOfAction(ms[0].value, service);
      var r := ItemWithIds(ms, service);
      assert r[1..] == ItemWithIds(ms[1..], service);
    }
  }

  // ---------- from any path of the merged document ----------

  /** Where a service's path stands in the merged document. */
  function MergedPath(api: Api, path: Text): Text {
    if api.name == BUILDLY then Qualify(path, api.name) else [SLASH] + api.name + Qualify(path, api.name)
  }

  lemma MergedPathGet(apis: seq<Api>, i: nat, path: Text)
    requires ValidApis(apis) && OperationIds.PlainPaths(apis) && OperationIds.GatewayApart(apis) && i < |apis|
    ensures Get(Section(apis[i].spec, PATHS), path).Some? ==>
      Get(MergeAll(AllPaths(apis)), MergedPath(apis[i], path))
        == Some(Renamed(Get(Section(apis[i].spec, PATHS), path).value, apis[i].name))
  {
    NameFacts();
    var spec, name := apis[i].spec, apis[i].name;
    SectionRenamed(spec, name, PATHS);
    RenamedSectionDistinct(spec, name, PATHS);
    RenamedGet(Section(spec, PATHS), name, path);
    PrefixedGet(Section(Renamed(spec, name), PATHS), [SLASH] + name, Qualify(path, name));
    OperationIds.NoPathLost(apis);
    assert AllPaths(apis)[i] == ApiPaths(apis[i]);
  }

  /** The item of a path in the final document: the renamed item, its ids rewritten. */
  lemma FinalItem(apis: seq<Api>, k: Text)
    requires ValidApis(apis) && Rewritable(apis) && Get(MergeAll(AllPaths(apis)), k).Some?
    ensures Get(FinalPaths(apis), k).Some?
    ensures RefsIn(Get(FinalPaths(apis), k).value) == RefsIn(Get(MergeAll(AllPaths(apis)), k).value)
  {
    var paths := MergeAll(AllPaths(apis));
    RewritableMerge(apis);
    var n := OperationIds.SameKeysGet(PathsWithIds(paths), paths, k);
    assert IsPath(paths[n]);
    RefsWithIds(paths[n].value.members, ServiceName(k));
  }

  lemma RenamedEntry(item: Json, api: Text, action: Text, k: Text)
    ensures OperationIds.EntryOf(Renamed(item, api), Qualify(action, api), Qualify(k, api))
         == RenamedOption(OperationIds.EntryOf(item, action, k), api)
  {
    if item.Obj? {
      RenamedGet(item.members, api, action);
      if Get(item.members, action).Some? && Get(item.members, action).value.Obj? {
        RenamedGet(Get(item.members, action).value.members, api, k);
      }
    }
  }

  /** Nothing of an operation is lost or changed but its id: in the final document each entry is the
      renamed entry of the service's specification. */
  lemma OperationPreserved(c: Configuration, apis: seq<Api>, i: nat, path: Text, action: Text, k: Text)
    requires ValidApis(apis) && Rewritable(apis) && i < |apis| && k != OPERATION_ID
    requires OperationIds.PlainPaths(apis) && OperationIds.GatewayApart(apis)
    requires Get(Section(apis[i].spec, PATHS), path).Some?
    ensures var name := apis[i].name;
      OperationIds.EntryAt(Section(FinalDocument(c, apis), PATHS), MergedPath(apis[i], path), Qualify(action, name),
                           Qualify(k, name))
        == RenamedOption(OperationIds.EntryAt(Section(apis[i].spec, PATHS), path, action, k), name)
  {
    var name, merged := apis[i].name, MergeAll(AllPaths(apis));
    var item := Get(Section(apis[i].spec, PATHS), path).value;
    DocumentEntries(c, MergeAll(AllDefinitions(apis)), FinalPaths(apis));
    NameFacts();
    QualifyUnhashed(OPERATION_ID, name);
    if Qualify(k, name) == OPERATION_ID {
      QualifyInjective(k, OPERATION_ID, name);
    }
    RewritableMerge(apis);
    OperationIds.RewrittenEntry(merged, MergedPath(apis[i], path), Qualify(action, name), Qualify(k, name));
    MergedPathGet(apis, i, path);
    RenamedEntry(item, name, action, k);
  }

  lemma RefsOfPath(spec: Json, path: Text)
    requires Get(Section(spec, PATHS), path).Some?
    ensures RefsIn(Get(Section(spec, PATHS), path).value) <= RefsIn(spec)
  {
    var n := GetMember(spec.members, PATHS);
    RefsOfMember(spec.members, n);
    var section := Section(spec, PATHS);
    var m := GetMember(section, path);
    RefsOfMember(section, m);
  }

  /** The reference closure of every operation is preserved: from a service's path, the chains of
      references in the final document are the renamed chains of the service's specification. */
  lemma ClosurePreserved(c: Configuration, apis: seq<Api>, i: nat, path: Text)
    requires ReferencePremises(apis, i) && TargetsApart(apis, i) && OnlyDefinitionRefs(apis[i].spec)
    requires OperationIds.PlainPaths(apis) && OperationIds.GatewayApart(apis)
    requires Get(Section(apis[i].spec, PATHS), path).Some?
    ensures var item := Get(Section(apis[i].spec, PATHS), path).value;
      var final := Get(Section(FinalDocument(c, apis), PATHS), MergedPath(apis[i], path));
      final.Some? &&
      (forall refs :: Chain(apis[i].spec, item, refs) ==>
         Chain(FinalDocument(c, apis), final.value, QualifyAll(refs, apis[i].name))) &&
      (forall merged :: Chain(FinalDocument(c, apis), final.value, merged) ==>
         exists refs :: Chain(apis[i].spec, item, refs) && merged == QualifyAll(refs, apis[i].name))
  {
    var spec, name := apis[i].spec, apis[i].name;
    var item := Get(Section(spec, PATHS), path).value;
    DocumentEntries(c, MergeAll(AllDefinitions(apis)), FinalPaths(apis));
    MergedPathGet(apis, i, path);
    FinalItem(apis, MergedPath(apis[i], path));
    var final := Get(FinalPaths(apis), MergedPath(apis[i], path)).value;
    assert RefsIn(final) == RefsIn(Renamed(item, name));
    RefsOfPath(spec, path);
    if PrefixFree(apis) {
      PrefixFreeNeverClashes(apis);
    }
    forall refs | Chain(spec, item, refs)
      ensures Chain(FinalDocument(c, apis), final, QualifyAll(refs, name))
    {
      ChainForward(c, apis, i, item, refs);
      SameRefsChain(FinalDocument(c, apis), Renamed(item, name), final, QualifyAll(refs, name));
    }
    forall merged | Chain(FinalDocument(c, apis), final, merged)
      ensures exists refs :: Chain(spec, item, refs) && merged == QualifyAll(refs, name)
    {
      SameRefsChain(FinalDocument(c, apis), final, Renamed(item, name), merged);
      var refs := ChainBackward(c, apis, i, item, merged);
    }
  }

  lemma SameRefsChain(doc: Json, j: Json, j': Json, refs: seq<Text>)
    requires RefsIn(j) == RefsIn(j') && Chain(doc, j, refs)
    ensures Chain(doc, j', refs)
  {
  }
}
