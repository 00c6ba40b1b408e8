/** The synchronous data mesh: extending response items with nested related records. */
module DataMesh {
  import opened Texts
  import opened Json
  import opened Models
  import opened Keys
  import opened JoinTable
  import opened Clients

  // ---------- the world around a mesh ----------

  /** What a mesh run reads and does not change: the join records, the local objects by app,
      model, field and value, the access check (if one is set), and the services with their answers
      to the method of the incoming request. */
  datatype World = World(
    rows: seq<JoinRecord>,
    localModels: set<(Text, Text)>,
    localObject: (Text, Text, Text, Text) -> Option<Json>,
    validator: Option<Json -> bool>,
    verb: Method,
    specs: map<Text, ServiceSpec>,
    network: Network)

  datatype Error = MissingLookupField | BadPrimaryKey | UnknownLocalModel | AccessDenied | MissingClient | ClientError

  /** `params` of `get_related_records_meta`. */
  datatype Params = Params(pk: Text, model: Text, service: Text, pkName: Text)

  type Fields = map<Text, Json>

  type Directed = (Relationship, bool)

  // ---------- the item's own key ----------

  /** A number whose digits before the exponent are not all zero. */
  predicate NonZero(lexeme: Text) {
    lexeme != [] && lexeme[0] != 'e' as int && lexeme[0] != 'E' as int &&
    ('1' as int <= lexeme[0] <= '9' as int || NonZero(lexeme[1..]))
  }

  /** Python truth of a JSON value. */
  predicate Truthy(j: Json) {
    match j
    case Null => false
    case Bool(b) => b
    case Num(lexeme) => NonZero(lexeme)
    case Str(s) => s != []
    case Arr(elems) => elems != []
    case Obj(members) => members != []
  }

  /** `str` of the item's key; for what is no string and no number, a text that is no key either. */
  function PkText(pk: Json): Text {
    match pk
    case Str(s) => s
    case Num(lexeme) => lexeme
    case _ => []
  }

  function OriginKey(pk: Json): Option<Key> {
    KeyOf(PkText(pk))
  }

  /** The spelling of zero: no digit from 1 on before the exponent. */
  ghost predicate IsZero(lexeme: Text) {
    forall i :: 0 <= i < |lexeme| && '1' as int <= lexeme[i] <= '9' as int ==>
      exists k :: 0 <= k < i && (lexeme[k] == 'e' as int || lexeme[k] == 'E' as int)
  }

  lemma {:induction false} NonZeroExactly(lexeme: Text)
    ensures NonZero(lexeme) <==> !IsZero(lexeme)
  {
    if lexeme != [] {
      var c, rest := lexeme[0], lexeme[1..];
      NonZeroExactly(rest);
      if c == 'e' as int || c == 'E' as int {
        assert IsZero(lexeme);
      } else if !('1' as int <= c <= '9' as int) {
        ZeroTail(lexeme);
      }
    }
  }

  lemma ZeroTail(lexeme: Text)
    requires lexeme != [] && lexeme[0] != 'e' as int && lexeme[0] != 'E' as int
    requires !('1' as int <= lexeme[0] <= '9' as int)
    ensures IsZero(lexeme) <==> IsZero(lexeme[1..])
  {
    var rest := lexeme[1..];
    if IsZero(rest) {
      forall i | 0 <= i < |lexeme| && '1' as int <= lexeme[i] <= '9' as int
        ensures exists k :: 0 <= k < i && (lexeme[k] == 'e' as int || lexeme[k] == 'E' as int)
      {
        assert rest[i - 1] == lexeme[i];
        var k :| 0 <= k < i - 1 && (rest[k] == 'e' as int || rest[k] == 'E' as int);
        assert lexeme[k + 1] == rest[k];
      }
    }
    if IsZero(lexeme) {
      forall i | 0 <= i < |rest| && '1' as int <= rest[i] <= '9' as int
        ensures exists k :: 0 <= k < i && (rest[k] == 'e' as int || rest[k] == 'E' as int)
      {
        assert lexeme[i + 1] == rest[i];
        var k :| 0 <= k < i + 1 && (lexeme[k] == 'e' as int || lexeme[k] == 'E' as int);
        assert rest[k - 1] == lexeme[k];
      }
    }
  }

  /** An item has a key when its lookup field is neither empty, nor null, nor false, nor zero. */
  lemma TruthyExactly(j: Json)
    ensures Truthy(j) <==>
      j !in {Null, Bool(false), Str([]), Arr([]), Obj([])} && (j.Num? ==> !IsZero(j.lexeme))
  {
    if j.Num? {
      NonZeroExactly(j.lexeme);
    }
  }

  /** An item that carries a key as a string or as a number is looked up under this key, exactly when
      the key is recognised. */
  lemma OriginKeyExactly(k: Key)
    ensures OriginKey(Str(KeyText(k))) == Some(k) <==> Recognised(k)
    ensures OriginKey(Num(KeyText(k))) == Some(k) <==> Recognised(k)
  {
    KeyOfExactly(k);
  }

  // ---------- lookups ----------

  function Strip(t: Text): Text {
    if t != [] && t[0] == SLASH then Strip(t[1..]) else StripRight(t)
  }

  /** The text without the slashes around it. */
  ghost predicate IsTrimmed(t: Text, s: Text) {
    exists m, n :: TrimmedAt(t, s, m, n)
  }

  ghost predicate TrimmedAt(t: Text, s: Text, m: int, n: int) {
    0 <= m <= n <= |t| && s == t[m..n] && (s != [] ==> s[0] != SLASH && s[|s| - 1] != SLASH) &&
    (forall i :: 0 <= i < m ==> t[i] == SLASH) && forall i :: n <= i < |t| ==> t[i] == SLASH
  }

  lemma {:induction false} StripTrims(t: Text)
    ensures IsTrimmed(t, Strip(t))
  {
    if t != [] && t[0] == SLASH {
      StripTrims(t[1..]);
      var m, n :| TrimmedAt(t[1..], Strip(t), m, n);
      assert forall i :: 1 <= i < |t| ==> t[i] == t[1..][i - 1];
      assert TrimmedAt(t, Strip(t), m + 1, n + 1);
    } else {
      StripRightTrims(t);
      assert TrimmedAt(t, Strip(t), 0, |Strip(t)|);
    }
  }

  lemma TrimmedOnce(t: Text, s: Text, m: int, n: int, s': Text, m': int, n': int)
    requires TrimmedAt(t, s, m, n) && TrimmedAt(t, s', m', n')
    ensures s == s'
  {
    assert s != [] ==> s[0] == t[m] && s[|s| - 1] == t[n - 1];
    assert s' != [] ==> s'[0] == t[m'] && s'[|s'| - 1] == t[n' - 1];
  }

  lemma StripExactly(t: Text, s: Text)
    ensures IsTrimmed(t, s) <==> s == Strip(t)
  {
    StripTrims(t);
    if IsTrimmed(t, s) {
      var m, n :| TrimmedAt(t, s, m, n);
      var m', n' :| TrimmedAt(t, Strip(t), m', n');
      TrimmedOnce(t, s, m, n, Strip(t), m', n');
    }
  }

  function Target(d: Directed): LogicModuleModel {
    if d.1 then d.0.related else d.0.origin
  }

  function ParamsFor(target: LogicModuleModel, pk: Text): Params {
    Params(pk, Strip(target.endpoint), target.endpointName, target.lookupField)
  }

  /** A lookup of the relationship: forwards it asks the related model, backwards the origin, by the
      model's service, its endpoint without slashes and its lookup field. */
  ghost predicate IsLookup(l: (Relationship, Params), d: Directed) {
    l.0 == d.0 &&
    (d.1 ==> l.1.service == d.0.related.endpointName && l.1.pkName == d.0.related.lookupField &&
             IsTrimmed(d.0.related.endpoint, l.1.model)) &&
    (!d.1 ==> l.1.service == d.0.origin.endpointName && l.1.pkName == d.0.origin.lookupField &&
              IsTrimmed(d.0.origin.endpoint, l.1.model))
  }

  lemma TargetAsked(l: (Relationship, Params), d: Directed)
    ensures IsLookup(l, d) <==> l == (d.0, ParamsFor(Target(d), l.1.pk))
  {
    StripExactly(d.0.related.endpoint, l.1.model);
    StripExactly(d.0.origin.endpoint, l.1.model);
  }

  /** The lookups of one relationship's join records. */
  function LookupsFrom(records: seq<JoinRecord>, d: Directed): (r: seq<(Relationship, Params)>)
    ensures |r| == |records|
    ensures forall i :: 0 <= i < |r| ==> r[i] == (d.0, ParamsFor(Target(d), PksOf(records, d.0, d.1)[i]))
  {
    var pks := PksOf(records, d.0, d.1);
    seq(|pks|, i requires 0 <= i < |pks| => (d.0, ParamsFor(Target(d), pks[i])))
  }

  function LookupsOf(rows: seq<JoinRecord>, origin: Key, d: Directed): seq<(Relationship, Params)> {
    LookupsFrom(MatchingRows(rows, origin, d.0.pk, d.1), d)
  }

  /** Everything `get_related_records_meta` yields. */
  function Lookups(rows: seq<JoinRecord>, relationships: seq<Directed>, origin: Key): seq<(Relationship, Params)> {
    if relationships == [] then []
    else
      Lookups(rows, relationships[..|relationships| - 1], origin) +
      LookupsOf(rows, origin, relationships[|relationships| - 1])
  }

  /** One related record, asked for without any cache: a record to append, nothing, or an error. */
  datatype Found = Record(record: Json) | Nothing | Failed(error: Error)

  function LocalRecord(w: World, p: Params): Found {
    if (p.service, p.model) !in w.localModels then Failed(UnknownLocalModel)
    else
      match w.localObject(p.service, p.model, p.pkName, p.pk)
      case None => Nothing
      case Some(obj) =>
        if w.validator.Some? && !w.validator.value(obj) then Failed(AccessDenied) else Record(obj)
  }

  /** Only a dict counts as a record. */
  function BodyRecord(body: Json): Found {
    if body.Obj? then Record(body) else Nothing
  }

  function RemoteRecord(w: World, p: Params): Found {
    if p.service !in w.specs then Failed(MissingClient)
    else
      match Uncached(w.specs[p.service], w.verb, w.network, Some(p.pk), p.model)
      case Content(body) => BodyRecord(body)
      case _ => Failed(ClientError)
  }

  function RelatedRecord(w: World, relationship: Relationship, p: Params): Found {
    if relationship.related.isLocal then LocalRecord(w, p) else RemoteRecord(w, p)
  }

  // ---------- one item, without caches ----------

  function ElemsAt(fields: Fields, key: Text): seq<Json> {
    if key in fields && fields[key].Arr? then fields[key].elems else []
  }

  function Appended(fields: Fields, key: Text, record: Json): Fields {
    fields[key := Arr(ElemsAt(fields, key) + [record])]
  }

  /** `data_item[relationship.key] = []` for every relationship. */
  function Cleared(fields: Fields, relationships: seq<Directed>): Fields {
    if relationships == [] then fields
    else Cleared(fields, relationships[..|relationships| - 1])[relationships[|relationships| - 1].0.key := Arr([])]
  }

  /** The item after one lookup, and the error that ends the loop. */
  function AfterRecord(fields: Fields, key: Text, found: Found): (Fields, Option<Error>) {
    match found
    case Record(r) => (Appended(fields, key, r), None)
    case Nothing => (fields, None)
    case Failed(e) => (fields, Some(e))
  }

  /** The lookups one after the other, up to the first error. */
  function Followed(w: World, fields: Fields, lookups: seq<(Relationship, Params)>): (Fields, Option<Error>) {
    if lookups == [] then (fields, None)
    else
      var (before, error) := Followed(w, fields, lookups[..|lookups| - 1]);
      var (relationship, p) := lookups[|lookups| - 1];
      if error.Some? then (before, error)
      else AfterRecord(before, relationship.key, RelatedRecord(w, relationship, p))
  }

  function Extended(w: World, relationships: seq<Directed>, lookupField: Text, fields: Fields)
    : (Fields, Option<Error>)
  {
    if lookupField !in fields || !Truthy(fields[lookupField]) then (fields, Some(MissingLookupField))
    else
      var cleared := Cleared(fields, relationships);
      if relationships == [] then (cleared, None)
      else
        match OriginKey(fields[lookupField])
        case None => (cleared, Some(BadPrimaryKey))
        case Some(origin) => Followed(w, cleared, Lookups(w.rows, relationships, origin))
  }

  // ---------- the local cache ----------

  /** `f"{service}.{model}.{pk}"`. */
  function CacheKey(p: Params): Text {
    p.service + [DOT] + (p.model + [DOT] + p.pk)
  }

  /** The part of a cache key before the primary key. */
  function KeyPrefix(m: LogicModuleModel): Text {
    m.endpointName + [DOT] + (Strip(m.endpoint) + [DOT])
  }

  /** The models are asked in the same way. */
  ghost predicate SameKind(a: LogicModuleModel, b: LogicModuleModel) {
    a.endpointName == b.endpointName && Strip(a.endpoint) == Strip(b.endpoint) && a.lookupField == b.lookupField
  }

  /** Among the models that are looked up locally, a key prefix never begins that of another kind. */
  ghost predicate CacheableNames(relationships: seq<Directed>) {
    forall i, j ::
      (0 <= i < |relationships| && 0 <= j < |relationships| &&
       relationships[i].0.related.isLocal && relationships[j].0.related.isLocal &&
       KeyPrefix(Target(relationships[i])) <= KeyPrefix(Target(relationships[j]))) ==>
      SameKind(Target(relationships[i]), Target(relationships[j]))
  }

  /** The parameters of a local lookup. */
  ghost predicate KnownParams(relationships: seq<Directed>, p: Params) {
    exists i :: 0 <= i < |relationships| && relationships[i].0.related.isLocal &&
      p == ParamsFor(Target(relationships[i]), p.pk)
  }

  /** Each cached object is the record the store has for every lookup with its cache key; so it
      passed the access check. */
  ghost predicate SoundCache(w: World, relationships: seq<Directed>, cache: map<Text, Json>) {
    forall p :: KnownParams(relationships, p) && CacheKey(p) in cache ==>
      LocalRecord(w, p) == Record(cache[CacheKey(p)])
  }

  lemma KeyOfParams(m: LogicModuleModel, pk: Text)
    ensures CacheKey(ParamsFor(m, pk)) == KeyPrefix(m) + pk
  {
    var service, model := m.endpointName, Strip(m.endpoint);
    assert service + [DOT] + (model + [DOT] + pk) == service + [DOT] + (model + [DOT]) + pk;
  }

  /** Under these names a cache key determines the lookup. */
  lemma CacheKeyInjective(relationships: seq<Directed>, p: Params, q: Params)
    requires CacheableNames(relationships) && KnownParams(relationships, p) && KnownParams(relationships, q)
    requires CacheKey(p) == CacheKey(q)
    ensures p == q
  {
    var i :| 0 <= i < |relationships| && relationships[i].0.related.isLocal &&
      p == ParamsFor(Target(relationships[i]), p.pk);
    var j :| 0 <= j < |relationships| && relationships[j].0.related.isLocal &&
      q == ParamsFor(Target(relationships[j]), q.pk);
    var a, b := KeyPrefix(Target(relationships[i])), KeyPrefix(Target(relationships[j]));
    KeyOfParams(Target(relationships[i]), p.pk);
    KeyOfParams(Target(relationships[j]), q.pk);
    if !(a <= b) && !(b <= a) {
      PrefixOfJoin(a, p.pk, b, q.pk);
    }
    assert (a + p.pk)[|a|..] == p.pk && (b + q.pk)[|b|..] == q.pk;
  }

  ghost predicate KeysDetermineLookups(relationships: seq<Directed>) {
    forall p, q ::
      KnownParams(relationships, p) && KnownParams(relationships, q) && CacheKey(p) == CacheKey(q) ==> p == q
  }

  /** And under no others. */
  lemma CacheKeyExactly(relationships: seq<Directed>)
    ensures CacheableNames(relationships) <==> KeysDetermineLookups(relationships)
  {
    if CacheableNames(relationships) {
      forall p, q | KnownParams(relationships, p) && KnownParams(relationships, q) && CacheKey(p) == CacheKey(q)
        ensures p == q
      {
        CacheKeyInjective(relationships, p, q);
      }
    } else {
      var i, j :| 0 <= i < |relationships| && 0 <= j < |relationships| &&
        relationships[i].0.related.isLocal && relationships[j].0.related.isLocal &&
        KeyPrefix(Target(relationships[i])) <= KeyPrefix(Target(relationships[j])) &&
        !SameKind(Target(relationships[i]), Target(relationships[j]));
      var m, n := Target(relationships[i]), Target(relationships[j]);
      var p, q := ParamsFor(m, KeyPrefix(n)[|KeyPrefix(m)|..]), ParamsFor(n, []);
      KeyOfParams(m, p.pk);
      KeyOfParams(n, []);
      assert KeyPrefix(m) + p.pk == KeyPrefix(n) == KeyPrefix(n) + [];
      assert p == ParamsFor(m, p.pk) && q == ParamsFor(n, q.pk);
      assert KnownParams(relationships, p) && KnownParams(relationships, q) && CacheKey(p) == CacheKey(q);
    }
  }

  /** Dot-free names are cacheable, as long as one service and endpoint have one lookup field. */
  lemma DotFreeCacheable(relationships: seq<Directed>)
    requires forall i :: 0 <= i < |relationships| && relationships[i].0.related.isLocal ==>
      DOT !in Target(relationships[i]).endpointName && DOT !in Strip(Target(relationships[i]).endpoint)
    requires forall i, j ::
      (0 <= i < |relationships| && 0 <= j < |relationships| &&
       Target(relationships[i]).endpointName == Target(relationships[j]).endpointName &&
       Strip(Target(relationships[i]).endpoint) == Strip(Target(relationships[j]).endpoint)) ==>
      Target(relationships[i]).lookupField == Target(relationships[j]).lookupField
    ensures CacheableNames(relationships)
  {
    forall i, j |
      0 <= i < |relationships| && 0 <= j < |relationships| &&
      relationships[i].0.related.isLocal && relationships[j].0.related.isLocal &&
      KeyPrefix(Target(relationships[i])) <= KeyPrefix(Target(relationships[j]))
      ensures SameKind(Target(relationships[i]), Target(relationships[j]))
    {
      var m, n := Target(relationships[i]), Target(relationships[j]);
      DotFreePrefix(m.endpointName, Strip(m.endpoint), n.endpointName, Strip(n.endpoint));
    }
  }

  lemma DotFreePrefix(a: Text, b: Text, c: Text, d: Text)
    requires DOT !in a && DOT !in b && DOT !in c && DOT !in d
    requires a + [DOT] + (b + [DOT]) <= c + [DOT] + (d + [DOT])
    ensures a == c && b == d
  {
    var s, t := a + [DOT] + (b + [DOT]), c + [DOT] + (d + [DOT]);
    var rest := t[|s|..];
    assert t == s + rest;
    assert s + rest == a + [DOT] + (b + [DOT] + rest);
    JoinInjective(a, b + [DOT] + rest, DOT, c, d + [DOT]);
    assert d + [DOT] == d + [DOT] + [];
    JoinInjective(b, rest, DOT, d, []);
  }

  /** Two kinds of local objects can share a cache key exactly when the key of one kind begins that
      of the other, up to its primary key. */
  lemma CacheCollisionExactly(service: Text, model: Text, service': Text, model': Text, name: Text, name': Text)
    ensures (exists pk, pk' ::
              CacheKey(Params(pk, model, service, name)) == CacheKey(Params(pk', model', service', name'))) <==>
      service + [DOT] + model + [DOT] <= service' + [DOT] + model' + [DOT] ||
      service' + [DOT] + model' + [DOT] <= service + [DOT] + model + [DOT]
  {
    var a, b := service + [DOT] + model + [DOT], service' + [DOT] + model' + [DOT];
    CollisionExactly(a, b);
    forall pk, pk'
      ensures CacheKey(Params(pk, model, service, name)) == CacheKey(Params(pk', model', service', name')) <==>
        a + pk == b + pk'
    {
      assert CacheKey(Params(pk, model, service, name)) == a + pk;
      assert CacheKey(Params(pk', model', service', name')) == b + pk';
    }
  }

  /** One call of `_extend_with_local` as far as cache and result go. */
  function CachedLookup(w: World, cache: map<Text, Json>, p: Params): (Found, map<Text, Json>) {
    if CacheKey(p) in cache then (Record(cache[CacheKey(p)]), cache)
    else
      match LocalRecord(w, p)
      case Record(r) => (Record(r), cache[CacheKey(p) := r])
      case other => (other, cache)
  }

  function CacheAfter(w: World, calls: seq<Params>): map<Text, Json> {
    if calls == [] then map[] else CachedLookup(w, CacheAfter(w, calls[..|calls| - 1]), calls[|calls| - 1]).1
  }

  lemma CachedLookupSound(w: World, relationships: seq<Directed>, cache: map<Text, Json>, p: Params)
    requires CacheableNames(relationships) && KnownParams(relationships, p) && SoundCache(w, relationships, cache)
    ensures CachedLookup(w, cache, p).0 == LocalRecord(w, p)
    ensures SoundCache(w, relationships, CachedLookup(w, cache, p).1)
  {
    var after := CachedLookup(w, cache, p).1;
    forall q | KnownParams(relationships, q) && CacheKey(q) in after
      ensures LocalRecord(w, q) == Record(after[CacheKey(q)])
    {
      if CacheKey(q) == CacheKey(p) {
        CacheKeyInjective(relationships, p, q);
      }
    }
  }

  /** Over every run of local lookups the cache cannot be observed: the next call gives what an
      uncached one would, and the access check, if set, has passed for whatever it appends. */
  lemma {:induction false} LocalCacheTransparent(w: World, relationships: seq<Directed>, calls: seq<Params>, p: Params)
    requires CacheableNames(relationships) && KnownParams(relationships, p)
    requires forall i :: 0 <= i < |calls| ==> KnownParams(relationships, calls[i])
    ensures SoundCache(w, relationships, CacheAfter(w, calls))
    ensures CachedLookup(w, CacheAfter(w, calls), p).0 == LocalRecord(w, p)
    ensures w.validator.Some? && CachedLookup(w, CacheAfter(w, calls), p).0.Record? ==>
      w.validator.value(CachedLookup(w, CacheAfter(w, calls), p).0.record)
  {
    if calls != [] {
      var n := |calls| - 1;
      assert forall i :: 0 <= i < n ==> calls[..n][i] == calls[i];
      LocalCacheTransparent(w, relationships, calls[..n], calls[n]);
      CachedLookupSound(w, relationships, CacheAfter(w, calls[..n]), calls[n]);
    }
    CachedLookupSound(w, relationships, CacheAfter(w, calls), p);
  }

  /** The parameters of a lookup as an object. */
  function Echo(service: Text, model: Text, name: Text, pk: Text): Json {
    Obj([Member(Lit("service"), Str(service)), Member(Lit("model"), Str(model)),
         Member(Lit("name"), Str(name)), Member(Lit("pk"), Str(pk))])
  }

  lemma EchoInjective(p: Params, q: Params)
    requires Echo(p.service, p.model, p.pkName, p.pk) == Echo(q.service, q.model, q.pkName, q.pk)
    ensures p == q
  {
    var a, b := Echo(p.service, p.model, p.pkName, p.pk).members, Echo(q.service, q.model, q.pkName, q.pk).members;
    assert a[0].value == b[0].value && a[1].value == b[1].value && a[2].value == b[2].value && a[3].value == b[3].value;
  }

  /** A world that answers every local lookup with its own parameters. */
  function EchoWorld(p: Params, q: Params): World {
    World([], {(p.service, p.model), (q.service, q.model)},
          (service, model, name, pk) => Some(Echo(service, model, name, pk)), None, GET, map[], url => None)
  }

  lemma EchoWorldTells(p: Params, q: Params)
    requires p != q && CacheKey(p) == CacheKey(q)
    ensures var w := EchoWorld(p, q); CachedLookup(w, CacheAfter(w, [p]), q).0 != LocalRecord(w, q)
  {
    var w := EchoWorld(p, q);
    var record := Echo(p.service, p.model, p.pkName, p.pk);
    assert [p][..0] == [] && CacheAfter(w, []) == map[];
    assert LocalRecord(w, p) == Record(record);
    assert CacheAfter(w, [p]) == map[CacheKey(p) := record];
    assert LocalRecord(w, q) == Record(Echo(q.service, q.model, q.pkName, q.pk));
    if record == Echo(q.service, q.model, q.pkName, q.pk) {
      EchoInjective(p, q);
    }
  }

  ghost predicate CalledWithKnown(relationships: seq<Directed>, calls: seq<Params>) {
    forall i :: 0 <= i < |calls| ==> KnownParams(relationships, calls[i])
  }

  /** Exactly under such names no world, and no run of lookups in it, can tell the cache. */
  lemma LocalCacheTransparentExactly(relationships: seq<Directed>)
    ensures CacheableNames(relationships) <==>
      forall w, calls, p :: CalledWithKnown(relationships, calls) && KnownParams(relationships, p) ==>
        CachedLookup(w, CacheAfter(w, calls), p).0 == LocalRecord(w, p)
  {
    if CacheableNames(relationships) {
      forall w, calls, p | CalledWithKnown(relationships, calls) && KnownParams(relationships, p)
        ensures CachedLookup(w, CacheAfter(w, calls), p).0 == LocalRecord(w, p)
      {
        LocalCacheTransparent(w, relationships, calls, p);
      }
    } else {
      CacheKeyExactly(relationships);
      var p, q :|
        KnownParams(relationships, p) && KnownParams(relationships, q) && CacheKey(p) == CacheKey(q) && p != q;
      EchoWorldTells(p, q);
      assert CalledWithKnown(relationships, [p]);
    }
  }

  // ---------- the mesh ----------

  /** A response item: a dict the mesh changes in place. */
  class DataItem {
    var fields: Fields

    constructor (fields: Fields)
      ensures this.fields == fields
    {
      this.fields := fields;
    }
  }

  /** The clients, one for each related service, ask the services of the world, and what they
      have cached is what the services answer. Under GET every entry was given, and no URL has been
      asked for again after an answer. */
  ghost predicate GoodClients(w: World, clients: map<Text, SwaggerClient>)
    reads clients.Values
  {
    clients.Keys == w.specs.Keys &&
    forall s :: s in clients ==> GoodClient(w, w.specs[s], clients[s])
  }

  ghost predicate GoodClient(w: World, spec: ServiceSpec, client: SwaggerClient)
    reads client
  {
    client.spec == spec && client.verb == w.verb && !client.hasQuery && Agrees(client.data, w.network) &&
    (w.verb == GET ==> Sound(client.State()))
  }

  class Mesh {
    const relationships: seq<Directed>
    const lookupField: Text
    var cache: map<Text, Json>

    constructor (relationships: seq<Directed>, lookupField: Text)
      ensures this.relationships == relationships && this.lookupField == lookupField && cache == map[]
      ensures forall w :: SoundCache(w, relationships, cache)
    {
      this.relationships, this.lookupField, cache := relationships, lookupField, map[];
    }

    ghost predicate Valid(w: World)
      reads this
    {
      CacheableNames(relationships) && SoundCache(w, relationships, cache)
    }

    /** The inner loop of `get_related_records_meta`. */
    static method YieldRecords(records: seq<JoinRecord>, d: Directed) returns (lookups: seq<(Relationship, Params)>)
      ensures lookups == LookupsFrom(records, d)
    {
      lookups := [];
      if records != [] {
        var (model, column) := PrepareLookup(d.1, d.0, records[0]);
        ghost var all := LookupsFrom(records, d);
        for j := 0 to |records|
          invariant |lookups| == j && forall i :: 0 <= i < j ==> lookups[i] == all[i]
        {
          lookups := lookups + [(d.0, ParamsFor(model, ColumnText(records[j], column)))];
        }
      }
    }

    /** One relationship; `None` where `get_join_records` raises. */
    static method YieldLookups(w: World, originPk: Text, d: Directed)
        returns (lookups: Option<seq<(Relationship, Params)>>)
      ensures lookups == match KeyOf(originPk) case None => None case Some(origin) => Some(LookupsOf(w.rows, origin, d))
    {
      var records := GetJoinRecords(w.rows, originPk, d.0.pk, d.1);
      if records.None? {
        return None;
      }
      var yielded := YieldRecords(records.value, d);
      return Some(yielded);
    }

    /** `get_related_records_meta`: with a key that is not recognised it raises at the first
        relationship. */
    method GetRelatedRecordsMeta(w: World, originPk: Json) returns (lookups: Option<seq<(Relationship, Params)>>)
      ensures lookups.None? <==> relationships != [] && OriginKey(originPk).None?
      ensures lookups.Some? && relationships == [] ==> lookups.value == []
      ensures lookups.Some? && relationships != [] ==>
        lookups.value == Lookups(w.rows, relationships, OriginKey(originPk).value)
      ensures lookups.Some? ==> forall l :: l in lookups.value ==> exists d :: d in relationships && IsLookup(l, d)
    {
      var all: seq<(Relationship, Params)> := [];
      ghost var origin := OriginKey(originPk);
      for i := 0 to |relationships|
        invariant (i == 0 ==> all == []) && (i > 0 ==> origin.Some?)
        invariant origin.Some? ==> all == Lookups(w.rows, relationships[..i], origin.value)
      {
        var yielded := YieldLookups(w, PkText(originPk), relationships[i]);
        if yielded.None? {
          return None;
        }
        LookupsOneMore(w.rows, relationships, i, origin.value);
        all := all + yielded.value;
      }
      assert relationships[..|relationships|] == relationships;
      if relationships != [] {
        LookupsAsk(w.rows, relationships, origin.value);
      }
      return Some(all);
    }

    /** `_extend_with_local`: the same object is appended whether or not it is cached. */
    method ExtendWithLocal(w: World, item: DataItem, relationship: Relationship, p: Params)
        returns (error: Option<Error>)
      requires Valid(w) && KnownParams(relationships, p)
      modifies this`cache, item
      ensures Valid(w)
      ensures (item.fields, error) == AfterRecord(old(item.fields), relationship.key, LocalRecord(w, p))
    {
      var cacheKey := CacheKey(p);
      if cacheKey in cache {
        item.fields := Appended(item.fields, relationship.key, cache[cacheKey]);
        return None;
      }
      if (p.service, p.model) !in w.localModels {
        return Some(UnknownLocalModel);
      }
      var obj := w.localObject(p.service, p.model, p.pkName, p.pk);
      if obj.None? {
        return None;
      }
      if w.validator.Some? && !w.validator.value(obj.value) {
        return Some(AccessDenied);
      }
      item.fields := Appended(item.fields, relationship.key, obj.value);
      forall q | KnownParams(relationships, q) && CacheKey(q) in cache[cacheKey := obj.value]
        ensures LocalRecord(w, q) == Record(cache[cacheKey := obj.value][CacheKey(q)])
      {
        if CacheKey(q) == cacheKey {
          CacheKeyInjective(relationships, p, q);
        }
      }
      cache := cache[cacheKey := obj.value];
      return None;
    }

    /** The remote half of the loop in `_add_nested_data`. */
    method ExtendWithRemote(w: World, item: DataItem, clients: map<Text, SwaggerClient>,
                            relationship: Relationship, p: Params) returns (error: Option<Error>)
      requires GoodClients(w, clients)
      modifies item, clients.Values
      ensures GoodClients(w, clients)
      ensures (item.fields, error) == AfterRecord(old(item.fields), relationship.key, RemoteRecord(w, p))
    {
      if p.service !in clients {
        return Some(MissingClient);
      }
      var answer := clients[p.service].Request(Some(p.pk), p.model, w.network);
      assert GoodClients(w, clients);
      if !answer.Content? {
        return Some(ClientError);
      }
      if answer.body.Obj? {
        item.fields := Appended(item.fields, relationship.key, answer.body);
      }
      return None;
    }

    /** One turn of the loop in `_add_nested_data`. */
    method FollowOne(w: World, item: DataItem, clients: map<Text, SwaggerClient>,
                     relationship: Relationship, p: Params) returns (error: Option<Error>)
      requires Valid(w) && GoodClients(w, clients)
      requires relationship.related.isLocal ==> KnownParams(relationships, p)
      modifies this`cache, item, clients.Values
      ensures Valid(w) && GoodClients(w, clients)
      ensures (item.fields, error) == AfterRecord(old(item.fields), relationship.key, RelatedRecord(w, relationship, p))
    {
      if relationship.related.isLocal {
        error := ExtendWithLocal(w, item, relationship, p);
      } else {
        error := ExtendWithRemote(w, item, clients, relationship, p);
      }
    }

    /** `data_item[relationship.key] = []` for every relationship. */
    method ClearPlaceholders(item: DataItem)
      modifies item
      ensures item.fields == Cleared(old(item.fields), relationships)
    {
      ghost var before := item.fields;
      for i := 0 to |relationships|
        invariant item.fields == Cleared(before, relationships[..i])
      {
        assert relationships[..i + 1][..i] == relationships[..i];
        item.fields := item.fields[relationships[i].0.key := Arr([])];
      }
      assert relationships[..|relationships|] == relationships;
    }

    /** The loop of `_add_nested_data` over the lookups. */
    method FollowLookups(w: World, item: DataItem, clients: map<Text, SwaggerClient>,
                         lookups: seq<(Relationship, Params)>) returns (error: Option<Error>)
      requires Valid(w) && GoodClients(w, clients)
      requires forall i :: 0 <= i < |lookups| && lookups[i].0.related.isLocal ==>
        KnownParams(relationships, lookups[i].1)
      modifies this`cache, item, clients.Values
      ensures Valid(w) && GoodClients(w, clients)
      ensures (item.fields, error) == Followed(w, old(item.fields), lookups)
    {
      ghost var cleared := item.fields;
      error := None;
      for i := 0 to |lookups|
        invariant Valid(w) && GoodClients(w, clients)
        invariant (item.fields, error) == Followed(w, cleared, lookups[..i]) && error == None
      {
        var (relationship, params) := lookups[i];
        FollowedStep(w, cleared, lookups, i);
        error := FollowOne(w, item, clients, relationship, params);
        if error.Some? {
          FollowedStops(w, cleared, lookups, i + 1);
          return;
        }
      }
      assert lookups[..|lookups|] == lookups;
    }

    /** `_add_nested_data`: with all its caches, what the uncached definition says. */
    method AddNestedData(w: World, item: DataItem, clients: map<Text, SwaggerClient>) returns (error: Option<Error>)
      requires Valid(w) && GoodClients(w, clients)
      modifies this`cache, item, clients.Values
      ensures Valid(w) && GoodClients(w, clients)
      ensures (item.fields, error) == Extended(w, relationships, lookupField, old(item.fields))
    {
      if lookupField !in item.fields || !Truthy(item.fields[lookupField]) {
        return Some(MissingLookupField);
      }
      var originPk := item.fields[lookupField];
      ClearPlaceholders(item);
      var lookups := GetRelatedRecordsMeta(w, originPk);
      if lookups.None? {
        return Some(BadPrimaryKey);
      }
      if relationships != [] {
        LookupsKnown(w.rows, relationships, OriginKey(originPk).value);
      }
      error := FollowLookups(w, item, clients, lookups.value);
    }

    /** `extend_data`, on the items of a list or on the one item of a dict: item after item, up to
        the first error, the item at `n`. */
    method ExtendData(w: World, data: seq<DataItem>, clients: map<Text, SwaggerClient>)
        returns (error: Option<Error>, ghost n: nat)
      requires Valid(w) && GoodClients(w, clients)
      requires forall i, j :: 0 <= i < |data| && 0 <= j < |data| && i != j ==> data[i] != data[j]
      modifies this`cache, data, clients.Values
      ensures Valid(w) && GoodClients(w, clients)
      ensures ExtendedUpTo(ExtendedEach(w, relationships, lookupField, old(FieldsOf(data))), old(FieldsOf(data)),
                           FieldsOf(data), n, error)
    {
      ghost var before := FieldsOf(data);
      ghost var results := ExtendedEach(w, relationships, lookupField, before);
      error, n := None, 0;
      for k := 0 to |data|
        invariant Valid(w) && GoodClients(w, clients)
        invariant error == None && n == k
        invariant forall i :: 0 <= i < k ==> results[i] == (data[i].fields, None)
        invariant forall i :: k <= i < |data| ==> data[i].fields == before[i]
      {
        error := AddNestedData(w, data[k], clients);
        assert results[k] == (data[k].fields, error);
        if error.Some? {
          return;
        }
        n := k + 1;
      }
    }
  }

  ghost function FieldsOf(data: seq<DataItem>): (r: seq<Fields>)
    reads data
    ensures |r| == |data|
    ensures forall i :: 0 <= i < |r| ==> r[i] == data[i].fields
  {
    seq(|data|, i requires 0 <= i < |data| reads data => data[i].fields)
  }

  /** Each item extended on its own. */
  function ExtendedEach(w: World, relationships: seq<Directed>, lookupField: Text, items: seq<Fields>)
    : (r: seq<(Fields, Option<Error>)>)
    ensures |r| == |items|
    ensures forall i :: 0 <= i < |r| ==> r[i] == Extended(w, relationships, lookupField, items[i])
  {
    seq(|items|, i requires 0 <= i < |items| => Extended(w, relationships, lookupField, items[i]))
  }

  /** The first `n` items are extended; without an error these are all, with one the item at `n`
      raised it and the items behind it are untouched. */
  ghost predicate ExtendedUpTo(results: seq<(Fields, Option<Error>)>, before: seq<Fields>, after: seq<Fields>,
                               n: nat, error: Option<Error>)
  {
    |results| == |before| == |after| && n <= |after| &&
    (forall i :: 0 <= i < n ==> results[i] == (after[i], None)) &&
    match error
    case None => n == |after|
    case Some(_) =>
      n < |after| && results[n] == (after[n], error) && forall i :: n < i < |after| ==> after[i] == before[i]
  }

  lemma LookupsOneMore(rows: seq<JoinRecord>, relationships: seq<Directed>, i: nat, origin: Key)
    requires i < |relationships|
    ensures Lookups(rows, relationships[..i + 1], origin)
         == Lookups(rows, relationships[..i], origin) + LookupsOf(rows, origin, relationships[i])
  {
    assert relationships[..i + 1][..i] == relationships[..i];
  }

  lemma FollowedStep(w: World, fields: Fields, lookups: seq<(Relationship, Params)>, i: nat)
    requires i < |lookups|
    ensures var (before, error) := Followed(w, fields, lookups[..i]);
      error.None? ==>
        Followed(w, fields, lookups[..i + 1])
          == AfterRecord(before, lookups[i].0.key, RelatedRecord(w, lookups[i].0, lookups[i].1))
  {
    assert lookups[..i + 1][..i] == lookups[..i];
  }

  ghost predicate LookupOf(lookup: (Relationship, Params), d: Directed) {
    lookup.0 == d.0 && lookup.1 == ParamsFor(Target(d), lookup.1.pk)
  }

  lemma LookupOfOne(rows: seq<JoinRecord>, origin: Key, d: Directed, i: nat)
    requires i < |LookupsOf(rows, origin, d)|
    ensures LookupOf(LookupsOf(rows, origin, d)[i], d)
  {
  }

  lemma {:induction false} LookupSource(rows: seq<JoinRecord>, relationships: seq<Directed>, origin: Key, i: nat)
      returns (j: nat)
    requires i < |Lookups(rows, relationships, origin)|
    ensures j < |relationships| && LookupOf(Lookups(rows, relationships, origin)[i], relationships[j])
  {
    var n := |relationships| - 1;
    var before := Lookups(rows, relationships[..n], origin);
    if i < |before| {
      j := LookupSource(rows, relationships[..n], origin, i);
      assert Lookups(rows, relationships, origin)[i] == before[i];
    } else {
      j := n;
      LookupOfOne(rows, origin, relationships[n], i - |before|);
    }
  }

  lemma LookupIsKnown(rows: seq<JoinRecord>, relationships: seq<Directed>, origin: Key, i: nat)
    requires i < |Lookups(rows, relationships, origin)|
    ensures var l := Lookups(rows, relationships, origin)[i]; l.0.related.isLocal ==> KnownParams(relationships, l.1)
    ensures exists j :: 0 <= j < |relationships| && LookupOf(Lookups(rows, relationships, origin)[i], relationships[j])
  {
    var j := LookupSource(rows, relationships, origin, i);
    var p := Lookups(rows, relationships, origin)[i].1;
    assert p == ParamsFor(Target(relationships[j]), p.pk);
  }

  lemma LookupsAsk(rows: seq<JoinRecord>, relationships: seq<Directed>, origin: Key)
    ensures forall l :: l in Lookups(rows, relationships, origin) ==> exists d :: d in relationships && IsLookup(l, d)
  {
    var lookups := Lookups(rows, relationships, origin);
    forall l | l in lookups ensures exists d :: d in relationships && IsLookup(l, d) {
      var i :| 0 <= i < |lookups| && lookups[i] == l;
      var j := LookupSource(rows, relationships, origin, i);
      TargetAsked(l, relationships[j]);
      assert relationships[j] in relationships;
    }
  }

  lemma LookupsKnown(rows: seq<JoinRecord>, relationships: seq<Directed>, origin: Key)
    ensures var lookups := Lookups(rows, relationships, origin);
      forall i :: 0 <= i < |lookups| && lookups[i].0.related.isLocal ==> KnownParams(relationships, lookups[i].1)
  {
    var lookups := Lookups(rows, relationships, origin);
    forall i | 0 <= i < |lookups| && lookups[i].0.related.isLocal ensures KnownParams(relationships, lookups[i].1) {
      LookupIsKnown(rows, relationships, origin, i);
    }
  }

  /** Once a lookup fails, the rest is not tried. */
  lemma {:induction false} FollowedStops(w: World, fields: Fields, lookups: seq<(Relationship, Params)>, n: nat)
    requires n <= |lookups|
    ensures Followed(w, fields, lookups[..n]).1.Some? ==>
      Followed(w, fields, lookups) == Followed(w, fields, lookups[..n])
    decreases |lookups| - n
  {
    if n < |lookups| {
      assert lookups[..n + 1][..n] == lookups[..n];
      FollowedStops(w, fields, lookups, n + 1);
    } else {
      assert lookups[..n] == lookups;
    }
  }

  // ---------- which runs succeed ----------

  lemma {:induction false} NoneFailed(w: World, fields: Fields, lookups: seq<(Relationship, Params)>)
    requires Followed(w, fields, lookups).1.None?
    ensures forall i :: 0 <= i < |lookups| ==> !RelatedRecord(w, lookups[i].0, lookups[i].1).Failed?
  {
    if lookups != [] {
      NoneFailed(w, fields, lookups[..|lookups| - 1]);
      assert forall i :: 0 <= i < |lookups| - 1 ==> lookups[..|lookups| - 1][i] == lookups[i];
    }
  }

  lemma {:induction false} FollowsIfNoneFailed(w: World, fields: Fields, lookups: seq<(Relationship, Params)>)
    requires forall i :: 0 <= i < |lookups| ==> !RelatedRecord(w, lookups[i].0, lookups[i].1).Failed?
    ensures Followed(w, fields, lookups).1.None?
  {
    if lookups != [] {
      assert forall i :: 0 <= i < |lookups| - 1 ==> lookups[..|lookups| - 1][i] == lookups[i];
      FollowsIfNoneFailed(w, fields, lookups[..|lookups| - 1]);
    }
  }

  /** The error is that of the first lookup that fails, and the item holds what those before it gave. */
  lemma FirstFailure(w: World, fields: Fields, lookups: seq<(Relationship, Params)>, n: nat)
    requires n < |lookups| && RelatedRecord(w, lookups[n].0, lookups[n].1).Failed?
    requires forall i :: 0 <= i < n ==> !RelatedRecord(w, lookups[i].0, lookups[i].1).Failed?
    ensures Followed(w, fields, lookups)
         == (Followed(w, fields, lookups[..n]).0, Some(RelatedRecord(w, lookups[n].0, lookups[n].1).error))
  {
    FollowsIfNoneFailed(w, fields, lookups[..n]);
    FollowedStep(w, fields, lookups, n);
    FollowedStops(w, fields, lookups, n + 1);
  }
}
