/** The clients that ask the services, and their response caches. */
module Clients {
  import opened Texts
  import opened Json
  import opened Keys
  import Replace

  datatype Method = GET | POST | PUT | PATCH | DELETE | OPTIONS | HEAD

  /** The part of an OpenAPI specification a client reads: where the service is, and for each
      operation, by method and path pattern, the path it is declared under. */
  datatype ServiceSpec = ServiceSpec(apiUrl: Text, operations: map<(Method, Text), Text>)

  // ---------- prepare_data ----------

  function PkName(pk: Text): Text {
    if ValidUuid4(pk) then Lit("uuid") else Lit("id")
  }

  function PathPattern(pk: Option<Text>, model: Text): Text {
    match pk
    case None => [SLASH] + Lower(model) + [SLASH]
    case Some(p) => [SLASH] + Lower(model) + [SLASH] + [OPEN_BRACE] + PkName(p) + [CLOSE_BRACE] + [SLASH]
  }

  function StripRight(t: Text): Text {
    if t != [] && t[|t| - 1] == SLASH then StripRight(t[..|t| - 1]) else t
  }

  /** The path of the operation, `None` when the request is refused. */
  function OperationPath(spec: ServiceSpec, verb: Method, path: Text): Option<Text> {
    if (verb, path) in spec.operations then Some(spec.operations[(verb, path)])
    else if verb == OPTIONS && (GET, path) in spec.operations then Some(spec.operations[(GET, path)])
    else None
  }

  /** `prepare_data`: the URL to ask, `None` where it raises. */
  function PreparedUrl(spec: ServiceSpec, verb: Method, pk: Option<Text>, model: Text): Option<Text> {
    match OperationPath(spec, verb, PathPattern(pk, model))
    case None => None
    case Some(pathName) =>
      var url := StripRight(spec.apiUrl) + pathName;
      match pk
      case None => Some(url)
      case Some(p) => Some(Replace.Replaced(url, [OPEN_BRACE] + PkName(p) + [CLOSE_BRACE], p))
  }

  /** The address of a record: the service, the model, the key. */
  function RecordUrl(base: Text, model: Text, pk: Text): Text {
    base + ([SLASH] + model + [SLASH] + (pk + [SLASH]))
  }

  // ---------- what is asked for ----------

  /** What stands for the key in a path: a UUID of version 4 has another name than any other key. */
  ghost function Placeholder(pk: Text): Text {
    if ValidUuid4(pk) then Lit("{uuid}") else Lit("{id}")
  }

  /** The path of a model's records. */
  ghost function RecordPath(model: Text, pk: Text): Text {
    [SLASH] + Lower(model) + [SLASH] + (Placeholder(pk) + [SLASH])
  }

  lemma PlaceholderExactly(pk: Text)
    ensures Placeholder(pk) == [OPEN_BRACE] + PkName(pk) + [CLOSE_BRACE]
  {
    assert Lit("{uuid}") == [OPEN_BRACE] + Lit("uuid") + [CLOSE_BRACE];
    assert Lit("{id}") == [OPEN_BRACE] + Lit("id") + [CLOSE_BRACE];
  }

  lemma PatternExactly(model: Text, pk: Text)
    ensures PathPattern(Some(pk), model) == RecordPath(model, pk)
    ensures PathPattern(None, model) == [SLASH] + Lower(model) + [SLASH]
  {
    PlaceholderExactly(pk);
    RegroupPath([SLASH] + Lower(model) + [SLASH], [OPEN_BRACE], PkName(pk), [CLOSE_BRACE], [SLASH]);
  }

  lemma RegroupPath(a: Text, b: Text, c: Text, d: Text, e: Text)
    ensures a + b + c + d + e == a + ((b + c + d) + e)
  {
  }

  /** The specification declares the operation under this path; OPTIONS may do with a GET. */
  ghost predicate DeclaredAt(spec: ServiceSpec, verb: Method, path: Text, declared: Text) {
    if (verb, path) in spec.operations then spec.operations[(verb, path)] == declared
    else verb == OPTIONS && (GET, path) in spec.operations && spec.operations[(GET, path)] == declared
  }

  /** `base` is the text without the slashes at its end. */
  ghost predicate EndTrimmed(t: Text, base: Text) {
    base <= t && (forall i :: |base| <= i < |t| ==> t[i] == SLASH) && (base != [] ==> base[|base| - 1] != SLASH)
  }

  lemma {:induction false} StripRightTrims(t: Text)
    ensures EndTrimmed(t, StripRight(t))
  {
    if t != [] && t[|t| - 1] == SLASH {
      StripRightTrims(t[..|t| - 1]);
    }
  }

  lemma StripRightExactly(t: Text, base: Text)
    ensures EndTrimmed(t, base) <==> base == StripRight(t)
  {
    var stripped := StripRight(t);
    StripRightTrims(t);
    if EndTrimmed(t, base) {
      assert base != [] ==> base[|base| - 1] == t[|base| - 1];
      assert stripped != [] ==> stripped[|stripped| - 1] == t[|stripped| - 1];
      assert |base| == |stripped|;
    }
  }

  /** A request is refused exactly when the specification declares no operation for it. */
  lemma RefusedExactly(spec: ServiceSpec, verb: Method, pk: Option<Text>, model: Text)
    ensures var path := if pk.Some? then RecordPath(model, pk.value) else [SLASH] + Lower(model) + [SLASH];
      PreparedUrl(spec, verb, pk, model).None? <==>
      (verb, path) !in spec.operations && (verb == OPTIONS ==> (GET, path) !in spec.operations)
  {
    PatternExactly(model, if pk.Some? then pk.value else []);
  }

  /** The declared path is asked for at the service, with the key where it belongs, and nothing else
      in the URL changes. */
  lemma UrlOfDeclared(spec: ServiceSpec, verb: Method, pk: Text, model: Text, base: Text, before: Text, after: Text)
    requires DeclaredAt(spec, verb, RecordPath(model, pk), before + (Placeholder(pk) + after))
    requires EndTrimmed(spec.apiUrl, base)
    requires OPEN_BRACE !in spec.apiUrl && OPEN_BRACE !in before && OPEN_BRACE !in after
    ensures PreparedUrl(spec, verb, Some(pk), model) == Some(base + (before + (pk + after)))
  {
    PatternExactly(model, pk);
    PlaceholderExactly(pk);
    StripRightExactly(spec.apiUrl, base);
    Completed(base, before, Placeholder(pk), after, pk);
  }

  lemma Completed(base: Text, before: Text, name: Text, after: Text, pk: Text)
    requires name != [] && name[0] == OPEN_BRACE
    requires OPEN_BRACE !in base && OPEN_BRACE !in before && OPEN_BRACE !in after
    ensures Replace.Replaced(base + (before + (name + after)), name, pk) == base + (before + (pk + after))
  {
    ConcatAssociative(base, before, name + after);
    ConcatAssociative(base, before, pk + after);
    Replace.ReplacedOnce(base + before, name, after, pk);
  }

  /** A path declared as the client asks for it becomes the address of the record. */
  lemma UrlOfRecord(spec: ServiceSpec, verb: Method, pk: Text, model: Text, base: Text)
    requires DeclaredAt(spec, verb, RecordPath(model, pk), RecordPath(model, pk)) && EndTrimmed(spec.apiUrl, base)
    requires OPEN_BRACE !in spec.apiUrl && OPEN_BRACE !in Lower(model)
    ensures PreparedUrl(spec, verb, Some(pk), model) == Some(RecordUrl(base, Lower(model), pk))
  {
    var before: Text := [SLASH] + Lower(model) + [SLASH];
    UrlOfDeclared(spec, verb, pk, model, base, before, [SLASH]);
  }

  /** Without a key the declared path is asked for as it stands. */
  lemma UrlOfList(spec: ServiceSpec, verb: Method, model: Text, base: Text, declared: Text)
    requires DeclaredAt(spec, verb, [SLASH] + Lower(model) + [SLASH], declared) && EndTrimmed(spec.apiUrl, base)
    ensures PreparedUrl(spec, verb, None, model) == Some(base + declared)
  {
    StripRightExactly(spec.apiUrl, base);
  }

  /** So different records of a service have different URLs, and one cache entry never stands for
      two records. */
  lemma RecordUrlInjective(base: Text, model: Text, pk: Text, model': Text, pk': Text)
    requires SLASH !in model && SLASH !in model'
    requires RecordUrl(base, model, pk) == RecordUrl(base, model', pk')
    ensures model == model' && pk == pk'
  {
    var a, b := model + [SLASH] + (pk + [SLASH]), model' + [SLASH] + (pk' + [SLASH]);
    assert RecordUrl(base, model, pk)[|base| + 1..] == a && RecordUrl(base, model', pk')[|base| + 1..] == b;
    JoinInjective(model, pk + [SLASH], SLASH, model', pk' + [SLASH]);
    assert pk == (pk + [SLASH])[..|pk + [SLASH]| - 1] && pk' == (pk' + [SLASH])[..|pk' + [SLASH]| - 1];
  }

  // ---------- the cache as a state machine ----------

  /** What the services would answer now, `None` where the call fails. */
  type Network = Text -> Option<Json>

  /** `_data`, and the calls made with the answers given. */
  datatype ClientState = ClientState(data: map<Text, Json>, calls: seq<(Text, Option<Json>)>)

  const EMPTY: ClientState := ClientState(map[], [])

  /** One request for a URL. */
  function Ask(s: ClientState, cacheable: bool, url: Text, reply: Option<Json>): (ClientState, Option<Json>) {
    if cacheable && url in s.data then (s, Some(s.data[url]))
    else
      var called := s.(calls := s.calls + [(url, reply)]);
      if cacheable && reply.Some? then (called.(data := s.data[url := reply.value]), reply) else (called, reply)
  }

  /** A request together with the answer the service would give at that moment. */
  datatype Event = Event(url: Text, reply: Option<Json>)

  function Run(cacheable: bool, events: seq<Event>): ClientState {
    if events == [] then EMPTY
    else
      var e := events[|events| - 1];
      Ask(Run(cacheable, events[..|events| - 1]), cacheable, e.url, e.reply).0
  }

  lemma RunSnoc(cacheable: bool, events: seq<Event>, e: Event)
    ensures Run(cacheable, events + [e]) == Ask(Run(cacheable, events), cacheable, e.url, e.reply).0
  {
    assert (events + [e])[..|events|] == events;
  }

  /** Every entry is an answer the service gave for its URL, and a URL that has been answered is
      not asked again. */
  ghost predicate Sound(s: ClientState) {
    (forall u :: u in s.data ==> (u, Some(s.data[u])) in s.calls) &&
    (forall i :: 0 <= i < |s.calls| && s.calls[i].1.Some? ==>
      s.calls[i].0 in s.data && s.calls[i].1 == Some(s.data[s.calls[i].0])) &&
    forall i, j :: 0 <= i < j < |s.calls| && s.calls[i].0 == s.calls[j].0 ==> s.calls[i].1.None?
  }

  lemma AskSound(s: ClientState, url: Text, reply: Option<Json>)
    requires Sound(s)
    ensures Sound(Ask(s, true, url, reply).0)
  {
    if url !in s.data {
      var t := Ask(s, true, url, reply).0;
      var n := |s.calls|;
      assert t.calls[n] == (url, reply) && forall i :: 0 <= i < n ==> t.calls[i] == s.calls[i];
      forall u | u in t.data ensures (u, Some(t.data[u])) in t.calls {
        EntryGiven(s, t, u);
      }
      forall i | 0 <= i < |t.calls| && t.calls[i].1.Some?
        ensures t.calls[i].0 in t.data && t.calls[i].1 == Some(t.data[t.calls[i].0])
      {
        if i < n {
          assert t.calls[i] == s.calls[i];
        }
      }
      forall i, j | 0 <= i < j < |t.calls| && t.calls[i].0 == t.calls[j].0 ensures t.calls[i].1.None? {
        assert t.calls[i] == s.calls[i];
        if j < n {
          assert t.calls[j] == s.calls[j];
        }
      }
    }
  }

  lemma EntryGiven(s: ClientState, t: ClientState, u: Text)
    requires u in t.data && s.calls <= t.calls
    requires u in s.data ==> (u, Some(s.data[u])) in s.calls && t.data[u] == s.data[u]
    requires u !in s.data ==> |s.calls| < |t.calls| && t.calls[|s.calls|] == (u, Some(t.data[u]))
    ensures (u, Some(t.data[u])) in t.calls
  {
    if u in s.data {
      var i :| 0 <= i < |s.calls| && s.calls[i] == (u, Some(s.data[u]));
      assert t.calls[i] == s.calls[i];
    }
  }

  /** Over every run of cacheable requests, whatever the service answers when: entries are answers
      given, and each URL is successfully called at most once. */
  lemma {:induction false} RunSound(events: seq<Event>)
    ensures Sound(Run(true, events))
  {
    if events != [] {
      RunSound(events[..|events| - 1]);
      AskSound(Run(true, events[..|events| - 1]), events[|events| - 1].url, events[|events| - 1].reply);
    }
  }

  ghost predicate Stable(events: seq<Event>, network: Network) {
    forall i :: 0 <= i < |events| ==> events[i].reply == network(events[i].url)
  }

  ghost predicate Agrees(data: map<Text, Json>, network: Network) {
    forall u :: u in data ==> network(u) == Some(data[u])
  }

  lemma {:induction false} RunAgrees(cacheable: bool, events: seq<Event>, network: Network)
    requires Stable(events, network)
    ensures Agrees(Run(cacheable, events).data, network)
  {
    if events != [] {
      RunAgrees(cacheable, events[..|events| - 1], network);
    }
  }

  /** With a stable service the cache cannot be observed: every answer is the uncached one. */
  lemma CacheIsTransparent(cacheable: bool, events: seq<Event>, network: Network, url: Text)
    requires Stable(events, network)
    ensures Ask(Run(cacheable, events), cacheable, url, network(url)).1 == network(url)
  {
    RunAgrees(cacheable, events, network);
  }

  // ---------- the synchronous client ----------

  /** What a request returns: the body, or the error it raises. */
  datatype Answer = Content(body: Json) | EndpointNotFound | GatewayError

  /** The answer of the service itself. */
  function Uncached(spec: ServiceSpec, verb: Method, network: Network, pk: Option<Text>, model: Text): Answer {
    match PreparedUrl(spec, verb, pk, model)
    case None => EndpointNotFound
    case Some(url) =>
      match network(url)
      case None => GatewayError
      case Some(j) => Content(j)
  }

  /** What a request does: without a URL nothing, with a cached answer no call; otherwise one call,
      whose answer is stored if the request may be cached. */
  ghost predicate Requested(s: ClientState, t: ClientState, answer: Answer, url: Option<Text>, cacheable: bool,
                            network: Network)
  {
    match url
    case None => answer == EndpointNotFound && t == s
    case Some(u) =>
      if cacheable && u in s.data then answer == Content(s.data[u]) && t == s
      else
        t.calls == s.calls + [(u, network(u))] &&
        t.data == (if cacheable && network(u).Some? then s.data[u := network(u).value] else s.data) &&
        answer == if network(u).Some? then Content(network(u).value) else GatewayError
  }

  class SwaggerClient {
    const spec: ServiceSpec
    /** Method and query parameters of the incoming request. */
    const verb: Method
    const hasQuery: bool
    var data: map<Text, Json>
    ghost var calls: seq<(Text, Option<Json>)>

    constructor (spec: ServiceSpec, verb: Method, hasQuery: bool)
      ensures this.spec == spec && this.verb == verb && this.hasQuery == hasQuery
      ensures State() == EMPTY
    {
      this.spec, this.verb, this.hasQuery := spec, verb, hasQuery;
      data, calls := map[], [];
    }

    /** `is_valid_for_cache`. */
    predicate IsValidForCache() {
      verb == GET && !hasQuery
    }

    ghost function State(): ClientState
      reads this
    {
      ClientState(data, calls)
    }

    /** `SwaggerClient.request`; `network` is what the services answer now. */
    method Request(pk: Option<Text>, model: Text, network: Network) returns (answer: Answer)
      modifies this
      ensures var url := PreparedUrl(spec, verb, pk, model);
        url.Some? ==> State() == Ask(old(State()), verb == GET && !hasQuery, url.value, network(url.value)).0
      ensures var url := PreparedUrl(spec, verb, pk, model);
        url.Some? ==> forall events :: old(State()) == Run(verb == GET && !hasQuery, events) ==>
          State() == Run(verb == GET && !hasQuery, events + [Event(url.value, network(url.value))])
      ensures Requested(old(State()), State(), answer, PreparedUrl(spec, verb, pk, model), verb == GET && !hasQuery,
                        network)
      ensures old(Agrees(data, network)) ==>
        Agrees(data, network) && answer == Uncached(spec, verb, network, pk, model)
      ensures verb == GET && !hasQuery && old(Sound(State())) ==> Sound(State())
    {
      var prepared := PreparedUrl(spec, verb, pk, model);
      if prepared.None? {
        return EndpointNotFound;
      }
      var url := prepared.value;
      forall events { RunSnoc(IsValidForCache(), events, Event(url, network(url))); }
      if IsValidForCache() && url in data {
        return Content(data[url]);
      }
      var reply := network(url);
      if IsValidForCache() {
        AskSoundIf(State(), url, reply);
      }
      calls := calls + [(url, reply)];
      if reply.None? {
        return GatewayError;
      }
      if IsValidForCache() {
        data := data[url := reply.value];
      }
      return Content(reply.value);
    }
  }

  lemma AskSoundIf(s: ClientState, url: Text, reply: Option<Json>)
    ensures Sound(s) ==> Sound(Ask(s, true, url, reply).0)
  {
    if Sound(s) {
      AskSound(s, url, reply);
    }
  }
}
