/** What the data mesh promises: the join of the items with the related records. */
module Joins {
  import opened Texts
  import opened Json
  import opened Models
  import opened JoinTable
  import opened Clients
  import opened DataMesh

  // ---------- the relational definition ----------

  /** The model on the other side: the related one forwards, the origin backwards. */
  ghost function FarModel(d: Directed): LogicModuleModel {
    if d.1 then d.0.related else d.0.origin
  }

  /** The answer of a model's service for a record, if the service is there, declares the operation
      and answers. */
  ghost function ServiceAnswer(w: World, m: LogicModuleModel, pk: Text): Option<Json> {
    if m.endpointName !in w.specs then None
    else
      match PreparedUrl(w.specs[m.endpointName], w.verb, Some(pk), Strip(m.endpoint))
      case None => None
      case Some(url) => w.network(url)
  }

  /** The object of a local model. */
  ghost function LocalObject(w: World, m: LogicModuleModel, pk: Text): Option<Json> {
    w.localObject(m.endpointName, Strip(m.endpoint), m.lookupField, pk)
  }

  ghost predicate MayBeSeen(w: World, obj: Json) {
    w.validator.Some? ==> w.validator.value(obj)
  }

  /** The record behind one far key, if there is one: what the far model's service answers, as long as
      it is a dict, or the local object, as long as it may be seen. */
  ghost function RecordOf(w: World, d: Directed, pk: Text): seq<Json> {
    var m := FarModel(d);
    if d.0.related.isLocal then
      var obj := LocalObject(w, m, pk);
      if (m.endpointName, Strip(m.endpoint)) in w.localModels && obj.Some? && MayBeSeen(w, obj.value) then [obj.value]
      else []
    else
      var answer := ServiceAnswer(w, m, pk);
      if answer.Some? && answer.value.Obj? then [answer.value] else []
  }

  /** Looking for the record raises no error: its service answers, or its local model is known and the
      object, if there is one, may be seen. */
  ghost predicate CanBeAsked(w: World, d: Directed, pk: Text) {
    var m := FarModel(d);
    if d.0.related.isLocal then
      (m.endpointName, Strip(m.endpoint)) in w.localModels &&
      (LocalObject(w, m, pk).Some? ==> MayBeSeen(w, LocalObject(w, m, pk).value))
    else ServiceAnswer(w, m, pk).Some?
  }

  lemma RecordExactly(w: World, d: Directed, pk: Text)
    ensures var found := RelatedRecord(w, d.0, ParamsFor(Target(d), pk));
      FoundRecord(found) == RecordOf(w, d, pk) && (!found.Failed? <==> CanBeAsked(w, d, pk))
  {
  }

  /** Why a record cannot be asked for. */
  lemma FailureExactly(w: World, d: Directed, pk: Text)
    requires !CanBeAsked(w, d, pk)
    ensures var m := FarModel(d);
      RelatedRecord(w, d.0, ParamsFor(Target(d), pk)) == Failed(
        if d.0.related.isLocal then
          if (m.endpointName, Strip(m.endpoint)) in w.localModels then AccessDenied else UnknownLocalModel
        else if m.endpointName in w.specs then ClientError else MissingClient)
  {
  }

  /** The records that the rows of a relationship pair with `origin`, in the order of the rows. */
  ghost function Nested(w: World, rows: seq<JoinRecord>, d: Directed, origin: Key): seq<Json>
    requires AllChecked(rows)
  {
    if rows == [] then []
    else
      (if rows[0].relationship == d.0.pk && NearKey(rows[0], d.1) == origin
       then RecordOf(w, d, KeyText(FarKey(rows[0], d.1))) else []) +
      Nested(w, rows[1..], d, origin)
  }

  /** All records to be nested under `key`: those of every relationship with this key, one
      relationship after the other. */
  ghost function NestedUnder(w: World, relationships: seq<Directed>, origin: Key, key: Text): seq<Json>
    requires AllChecked(w.rows)
  {
    if relationships == [] then []
    else
      var d := relationships[|relationships| - 1];
      NestedUnder(w, relationships[..|relationships| - 1], origin, key) +
      if d.0.key == key then Nested(w, w.rows, d, origin) else []
  }

  function KeysOf(relationships: seq<Directed>): set<Text> {
    set d | d in relationships :: d.0.key
  }

  /** The item joined with its related records. */
  ghost function Joined(w: World, relationships: seq<Directed>, origin: Key, fields: Fields): (r: Fields)
    requires AllChecked(w.rows)
    ensures r.Keys == fields.Keys + KeysOf(relationships)
  {
    map k | k in fields.Keys + KeysOf(relationships) ::
      if k in KeysOf(relationships) then Arr(NestedUnder(w, relationships, origin, k)) else fields[k]
  }

  /** In every relationship the far keys found for this record have one kind. */
  ghost predicate HomogeneousFor(rows: seq<JoinRecord>, relationships: seq<Directed>, origin: Key)
    requires AllChecked(rows)
  {
    forall i :: 0 <= i < |relationships| ==>
      Homogeneous(MatchingRows(rows, origin, relationships[i].0.pk, relationships[i].1), relationships[i].1)
  }

  // ---------- what the lookups collect ----------

  function FoundRecord(f: Found): seq<Json> {
    match f case Record(r) => [r] case _ => []
  }

  /** The records that successful lookups append under `key`. */
  function Collected(w: World, lookups: seq<(Relationship, Params)>, key: Text): seq<Json> {
    if lookups == [] then []
    else
      var (relationship, p) := lookups[|lookups| - 1];
      Collected(w, lookups[..|lookups| - 1], key) +
      if relationship.key == key then FoundRecord(RelatedRecord(w, relationship, p)) else []
  }

  lemma {:induction false} CollectedConcat(w: World, a: seq<(Relationship, Params)>, b: seq<(Relationship, Params)>,
                                           key: Text)
    ensures Collected(w, a + b, key) == Collected(w, a, key) + Collected(w, b, key)
  {
    if b == [] {
      assert a + b == a;
    } else {
      assert (a + b)[..|a + b| - 1] == a + b[..|b| - 1];
      CollectedConcat(w, a, b[..|b| - 1], key);
    }
  }

  ghost predicate HasPlaceholders(fields: Fields, lookups: seq<(Relationship, Params)>) {
    forall i :: 0 <= i < |lookups| ==> lookups[i].0.key in fields && fields[lookups[i].0.key].Arr?
  }

  /** Lookups that end without an error append to their lists and touch nothing else. */
  lemma {:induction false} FollowedCollects(w: World, fields: Fields, lookups: seq<(Relationship, Params)>)
    requires HasPlaceholders(fields, lookups) && Followed(w, fields, lookups).1.None?
    ensures var after := Followed(w, fields, lookups).0;
      after.Keys == fields.Keys &&
      forall k :: k in fields ==>
        (fields[k].Arr? ==> after[k] == Arr(fields[k].elems + Collected(w, lookups, k))) &&
        (!fields[k].Arr? ==> after[k] == fields[k] && Collected(w, lookups, k) == [])
  {
    if lookups == [] {
      assert forall k :: k in fields && fields[k].Arr? ==> fields[k].elems + [] == fields[k].elems;
    } else {
      var n := |lookups| - 1;
      assert forall i :: 0 <= i < n ==> lookups[..n][i] == lookups[i];
      FollowedCollects(w, fields, lookups[..n]);
      FollowedLast(w, fields, lookups);
      forall k | k in fields && fields[k].Arr?
        ensures Followed(w, fields, lookups).0[k] == Arr(fields[k].elems + Collected(w, lookups, k))
      {
        FollowedCollectsOne(w, fields, lookups, k);
      }
    }
  }

  /** The last of several successful lookups changes one list at most. */
  lemma FollowedLast(w: World, fields: Fields, lookups: seq<(Relationship, Params)>)
    requires lookups != [] && Followed(w, fields, lookups).1.None?
    ensures var before := Followed(w, fields, lookups[..|lookups| - 1]);
      var after := Followed(w, fields, lookups).0;
      var key := lookups[|lookups| - 1].0.key;
      before.1.None? && (key in before.0 ==> after.Keys == before.0.Keys) &&
      (forall k :: k in before.0 && k != key ==> k in after && after[k] == before.0[k])
  {
  }

  lemma FollowedCollectsOne(w: World, fields: Fields, lookups: seq<(Relationship, Params)>, k: Text)
    requires lookups != [] && Followed(w, fields, lookups).1.None?
    requires k in fields && fields[k].Arr? && lookups[|lookups| - 1].0.key in fields
    requires k in Followed(w, fields, lookups[..|lookups| - 1]).0
    requires Followed(w, fields, lookups[..|lookups| - 1]).0[k]
          == Arr(fields[k].elems + Collected(w, lookups[..|lookups| - 1], k))
    ensures k in Followed(w, fields, lookups).0
    ensures Followed(w, fields, lookups).0[k] == Arr(fields[k].elems + Collected(w, lookups, k))
  {
    var (relationship, p) := lookups[|lookups| - 1];
    var c := Collected(w, lookups[..|lookups| - 1], k);
    assert c + [] == c;
    var f := RelatedRecord(w, relationship, p);
    if f.Record? {
      assert (fields[k].elems + c) + [f.record] == fields[k].elems + (c + [f.record]);
    }
  }

  lemma {:induction false} ClearedFields(fields: Fields, relationships: seq<Directed>)
    ensures Cleared(fields, relationships).Keys == fields.Keys + KeysOf(relationships)
    ensures forall k :: k in Cleared(fields, relationships) ==>
      Cleared(fields, relationships)[k] == if k in KeysOf(relationships) then Arr([]) else fields[k]
  {
    if relationships != [] {
      var n := |relationships| - 1;
      ClearedFields(fields, relationships[..n]);
      assert relationships == relationships[..n] + [relationships[n]];
      assert KeysOf(relationships) == KeysOf(relationships[..n]) + {relationships[n].0.key};
    }
  }

  lemma LookupKeys(rows: seq<JoinRecord>, relationships: seq<Directed>, origin: Key, fields: Fields)
    ensures HasPlaceholders(Cleared(fields, relationships), Lookups(rows, relationships, origin))
  {
    var lookups := Lookups(rows, relationships, origin);
    ClearedFields(fields, relationships);
    forall i | 0 <= i < |lookups|
      ensures lookups[i].0.key in KeysOf(relationships)
    {
      LookupIsKnown(rows, relationships, origin, i);
    }
  }

  /** The records behind a list of far keys. */
  ghost function RecordsOf(w: World, d: Directed, pks: seq<Text>): seq<Json> {
    if pks == [] then [] else RecordsOf(w, d, pks[..|pks| - 1]) + RecordOf(w, d, pks[|pks| - 1])
  }

  function LookupsFor(d: Directed, pks: seq<Text>): (r: seq<(Relationship, Params)>)
    ensures |r| == |pks|
    ensures forall i :: 0 <= i < |r| ==> r[i] == (d.0, ParamsFor(Target(d), pks[i]))
  {
    seq(|pks|, i requires 0 <= i < |pks| => (d.0, ParamsFor(Target(d), pks[i])))
  }

  lemma {:induction false} CollectedFor(w: World, d: Directed, pks: seq<Text>, key: Text)
    ensures Collected(w, LookupsFor(d, pks), key) == if d.0.key == key then RecordsOf(w, d, pks) else []
  {
    if pks != [] {
      CollectedFor(w, d, pks[..|pks| - 1], key);
      RecordExactly(w, d, pks[|pks| - 1]);
      assert LookupsFor(d, pks)[..|pks| - 1] == LookupsFor(d, pks[..|pks| - 1]);
    }
  }

  lemma {:induction false} RecordsOfCons(w: World, d: Directed, pk: Text, pks: seq<Text>)
    ensures RecordsOf(w, d, [pk] + pks) == RecordOf(w, d, pk) + RecordsOf(w, d, pks)
  {
    if pks == [] {
      assert [pk] + pks == [pk];
      assert RecordsOf(w, d, [pk][..0]) == [];
    } else {
      var before, last := pks[..|pks| - 1], pks[|pks| - 1];
      assert ([pk] + pks)[..|pks|] == [pk] + before;
      RecordsOfCons(w, d, pk, before);
      var x, y, z := RecordOf(w, d, pk), RecordsOf(w, d, before), RecordOf(w, d, last);
      assert x + (y + z) == (x + y) + z;
    }
  }

  lemma FarRecordsCons(w: World, d: Directed, r: JoinRecord, rest: seq<JoinRecord>)
    requires Checked(r) && AllChecked(rest)
    ensures RecordsOf(w, d, FarTexts([r] + rest, d.1))
         == RecordOf(w, d, KeyText(FarKey(r, d.1))) + RecordsOf(w, d, FarTexts(rest, d.1))
  {
    FarTextsCons(r, rest, d.1);
    RecordsOfCons(w, d, KeyText(FarKey(r, d.1)), FarTexts(rest, d.1));
  }

  lemma {:induction false} NestedIsRecords(w: World, rows: seq<JoinRecord>, d: Directed, origin: Key)
    requires AllChecked(rows)
    ensures Nested(w, rows, d, origin) == RecordsOf(w, d, FarTexts(MatchingRows(rows, origin, d.0.pk, d.1), d.1))
  {
    if rows != [] {
      NestedIsRecords(w, rows[1..], d, origin);
      MatchesNearKey(rows[0], origin, d.0.pk, d.1);
      var rest := MatchingRows(rows[1..], origin, d.0.pk, d.1);
      if Matches(rows[0], origin, d.0.pk, d.1) {
        FarRecordsCons(w, d, rows[0], rest);
      } else {
        var nested := Nested(w, rows[1..], d, origin);
        assert [] + nested == nested;
      }
    }
  }

  lemma CollectedOfOne(w: World, d: Directed, origin: Key, key: Text)
    requires AllChecked(w.rows) && Homogeneous(MatchingRows(w.rows, origin, d.0.pk, d.1), d.1)
    ensures Collected(w, LookupsOf(w.rows, origin, d), key)
         == if d.0.key == key then Nested(w, w.rows, d, origin) else []
  {
    var records := MatchingRows(w.rows, origin, d.0.pk, d.1);
    FirstColumnExactly(records, d.0, d.1);
    assert LookupsOf(w.rows, origin, d) == LookupsFor(d, FarTexts(records, d.1));
    CollectedFor(w, d, FarTexts(records, d.1), key);
    NestedIsRecords(w, w.rows, d, origin);
  }

  lemma HomogeneousParts(rows: seq<JoinRecord>, relationships: seq<Directed>, origin: Key)
    requires AllChecked(rows) && HomogeneousFor(rows, relationships, origin) && relationships != []
    ensures HomogeneousFor(rows, relationships[..|relationships| - 1], origin)
    ensures var d := relationships[|relationships| - 1];
      Homogeneous(MatchingRows(rows, origin, d.0.pk, d.1), d.1)
  {
  }

  lemma CollectedLast(w: World, relationships: seq<Directed>, origin: Key, key: Text)
    requires relationships != []
    ensures Collected(w, Lookups(w.rows, relationships, origin), key) ==
      Collected(w, Lookups(w.rows, relationships[..|relationships| - 1], origin), key) +
      Collected(w, LookupsOf(w.rows, origin, relationships[|relationships| - 1]), key)
  {
    CollectedConcat(w, Lookups(w.rows, relationships[..|relationships| - 1], origin),
                    LookupsOf(w.rows, origin, relationships[|relationships| - 1]), key);
  }

  lemma {:induction false} CollectedIsNested(w: World, relationships: seq<Directed>, origin: Key, key: Text)
    requires AllChecked(w.rows) && HomogeneousFor(w.rows, relationships, origin)
    ensures Collected(w, Lookups(w.rows, relationships, origin), key) == NestedUnder(w, relationships, origin, key)
  {
    if relationships != [] {
      var before, d := relationships[..|relationships| - 1], relationships[|relationships| - 1];
      HomogeneousParts(w.rows, relationships, origin);
      CollectedIsNested(w, before, origin, key);
      CollectedLast(w, relationships, origin, key);
      CollectedOfOne(w, d, origin, key);
    }
  }

  // ---------- results ----------

  /** The mesh computes the relational join: an item extended without an error is the item with,
      under each relationship key, exactly the records its join records lead to, in order, and
      its other fields as they were. */
  lemma SyncIsRelationalJoin(w: World, relationships: seq<Directed>, lookupField: Text, fields: Fields)
    requires AllChecked(w.rows) && relationships != []
    requires Extended(w, relationships, lookupField, fields).1.None?
    requires HomogeneousFor(w.rows, relationships, OriginKey(fields[lookupField]).value)
    ensures Extended(w, relationships, lookupField, fields).0
         == Joined(w, relationships, OriginKey(fields[lookupField]).value, fields)
  {
    var origin := OriginKey(fields[lookupField]).value;
    var lookups := Lookups(w.rows, relationships, origin);
    var cleared := Cleared(fields, relationships);
    var after := Followed(w, cleared, lookups).0;
    ClearedFields(fields, relationships);
    LookupKeys(w.rows, relationships, origin, fields);
    FollowedCollects(w, cleared, lookups);
    forall k | k in after ensures after[k] == Joined(w, relationships, origin, fields)[k] {
      CollectedIsNested(w, relationships, origin, k);
      JoinedField(w, relationships, origin, fields, k, after[k]);
    }
  }

  lemma {:induction false} LookupsPrefix(rows: seq<JoinRecord>, relationships: seq<Directed>, origin: Key,
                                         m: nat, n: nat)
    requires m <= n <= |relationships|
    ensures Lookups(rows, relationships[..m], origin) <= Lookups(rows, relationships[..n], origin)
    decreases n
  {
    if m < n {
      LookupsPrefix(rows, relationships, origin, m, n - 1);
      LookupsOneMore(rows, relationships, n - 1, origin);
      PrefixGrows(Lookups(rows, relationships[..m], origin), Lookups(rows, relationships[..n - 1], origin),
                  LookupsOf(rows, origin, relationships[n - 1]));
    }
  }

  lemma PrefixGrows<T>(a: seq<T>, b: seq<T>, more: seq<T>)
    requires a <= b
    ensures a <= b + more
  {
  }

  /** The relationship that a lookup belongs to. */
  lemma {:induction false} LookupPlace(rows: seq<JoinRecord>, relationships: seq<Directed>, origin: Key, n: nat, i: nat)
      returns (j: nat)
    requires n <= |relationships| && i < |Lookups(rows, relationships[..n], origin)|
    ensures j < n
    ensures |Lookups(rows, relationships[..j], origin)| <= i < |Lookups(rows, relationships[..j + 1], origin)|
    decreases n
  {
    if i < |Lookups(rows, relationships[..n - 1], origin)| {
      j := LookupPlace(rows, relationships, origin, n - 1, i);
    } else {
      j := n - 1;
    }
  }

  /** The lookups of one relationship among all lookups. */
  lemma LookupsAmong(rows: seq<JoinRecord>, relationships: seq<Directed>, origin: Key, j: nat)
    requires j < |relationships|
    ensures Lookups(rows, relationships[..j], origin) + LookupsOf(rows, origin, relationships[j])
         <= Lookups(rows, relationships, origin)
  {
    LookupsOneMore(rows, relationships, j, origin);
    LookupsPrefix(rows, relationships, origin, j + 1, |relationships|);
    assert relationships[..|relationships|] == relationships;
  }

  /** A lookup comes from a join record of some relationship. */
  lemma LookupFrom(rows: seq<JoinRecord>, relationships: seq<Directed>, origin: Key, i: nat) returns (j: nat, k: nat)
    requires i < |Lookups(rows, relationships, origin)|
    ensures j < |relationships| && k < |LookupsOf(rows, origin, relationships[j])|
    ensures Lookups(rows, relationships, origin)[i] == LookupsOf(rows, origin, relationships[j])[k]
  {
    assert relationships[..|relationships|] == relationships;
    j := LookupPlace(rows, relationships, origin, |relationships|, i);
    var before, part := Lookups(rows, relationships[..j], origin), LookupsOf(rows, origin, relationships[j]);
    LookupsOneMore(rows, relationships, j, origin);
    LookupsAmong(rows, relationships, origin, j);
    k := FromSecondPart(before, part, i, Lookups(rows, relationships, origin));
  }

  lemma FromSecondPart<T>(a: seq<T>, b: seq<T>, i: nat, all: seq<T>) returns (k: nat)
    requires |a| <= i < |a + b| && a + b <= all
    ensures k < |b| && i < |all| && all[i] == b[k]
  {
    k := i - |a|;
    assert (a + b)[i] == b[k];
  }

  /** And each of them is looked up. */
  lemma LookupTo(rows: seq<JoinRecord>, relationships: seq<Directed>, origin: Key, j: nat, k: nat) returns (i: nat)
    requires j < |relationships| && k < |LookupsOf(rows, origin, relationships[j])|
    ensures i < |Lookups(rows, relationships, origin)|
    ensures Lookups(rows, relationships, origin)[i] == LookupsOf(rows, origin, relationships[j])[k]
  {
    var before, part := Lookups(rows, relationships[..j], origin), LookupsOf(rows, origin, relationships[j]);
    LookupsAmong(rows, relationships, origin, j);
    i := InSecondPart(before, part, k, Lookups(rows, relationships, origin));
  }

  lemma InSecondPart<T>(a: seq<T>, b: seq<T>, k: nat, all: seq<T>) returns (i: nat)
    requires k < |b| && a + b <= all
    ensures i < |all| && all[i] == b[k]
  {
    i := |a| + k;
    assert (a + b)[i] == b[k];
  }

  /** The row pairs the item's record with another one that can be asked for. */
  ghost predicate LeadsOn(w: World, d: Directed, origin: Key, r: JoinRecord)
    requires Checked(r)
  {
    r.relationship == d.0.pk && NearKey(r, d.1) == origin ==> CanBeAsked(w, d, KeyText(FarKey(r, d.1)))
  }

  ghost predicate AllCanBeAsked(w: World, relationships: seq<Directed>, origin: Key)
    requires AllChecked(w.rows)
  {
    forall j, i :: 0 <= j < |relationships| && 0 <= i < |w.rows| ==> LeadsOn(w, relationships[j], origin, w.rows[i])
  }

  /** The mesh extends an item exactly when the item has a key in its lookup field, this is a key of a
      record, and every record it is joined with can be asked for. */
  lemma MeshSucceedsExactly(w: World, relationships: seq<Directed>, lookupField: Text, fields: Fields)
    requires AllChecked(w.rows) && relationships != []
    requires lookupField in fields && OriginKey(fields[lookupField]).Some? ==>
      HomogeneousFor(w.rows, relationships, OriginKey(fields[lookupField]).value)
    ensures Extended(w, relationships, lookupField, fields).1.None? <==>
      lookupField in fields && Truthy(fields[lookupField]) && OriginKey(fields[lookupField]).Some? &&
      AllCanBeAsked(w, relationships, OriginKey(fields[lookupField]).value)
  {
    if lookupField in fields && Truthy(fields[lookupField]) && OriginKey(fields[lookupField]).Some? {
      var origin := OriginKey(fields[lookupField]).value;
      LookupsSucceedExactly(w, Cleared(fields, relationships), relationships, origin);
    }
  }

  /** Without a key in its lookup field an item is left as it is; with one that is no key of a record
      its lists are emptied. */
  lemma NoKeyFails(w: World, relationships: seq<Directed>, lookupField: Text, fields: Fields)
    requires relationships != []
    ensures !(lookupField in fields && Truthy(fields[lookupField])) ==>
      Extended(w, relationships, lookupField, fields) == (fields, Some(MissingLookupField))
    ensures lookupField in fields && Truthy(fields[lookupField]) && OriginKey(fields[lookupField]).None? ==>
      var (after, error) := Extended(w, relationships, lookupField, fields);
      error == Some(BadPrimaryKey) && after.Keys == fields.Keys + KeysOf(relationships) &&
      forall k :: k in after ==> after[k] == if k in KeysOf(relationships) then Arr([]) else fields[k]
  {
    ClearedFields(fields, relationships);
  }

  lemma LookupsSucceedExactly(w: World, fields: Fields, relationships: seq<Directed>, origin: Key)
    requires AllChecked(w.rows) && HomogeneousFor(w.rows, relationships, origin)
    ensures Followed(w, fields, Lookups(w.rows, relationships, origin)).1.None? <==>
      AllCanBeAsked(w, relationships, origin)
  {
    var lookups := Lookups(w.rows, relationships, origin);
    if AllCanBeAsked(w, relationships, origin) {
      forall n | 0 <= n < |lookups| ensures !RelatedRecord(w, lookups[n].0, lookups[n].1).Failed? {
        var j, k := LookupFrom(w.rows, relationships, origin, n);
        var i := RowOfLookup(w, relationships[j], origin, k);
        assert LeadsOn(w, relationships[j], origin, w.rows[i]);
      }
      FollowsIfNoneFailed(w, fields, lookups);
    }
    if Followed(w, fields, lookups).1.None? {
      NoneFailed(w, fields, lookups);
      forall j, i | 0 <= j < |relationships| && 0 <= i < |w.rows|
        ensures LeadsOn(w, relationships[j], origin, w.rows[i])
      {
        var d, r := relationships[j], w.rows[i];
        if r.relationship == d.0.pk && NearKey(r, d.1) == origin {
          var k := LookupOfRow(w, d, origin, i);
          var n := LookupTo(w.rows, relationships, origin, j, k);
        }
      }
    }
  }

  /** The lookup of a join record raises an error exactly when the far record cannot be asked for. */
  lemma LookupFails(w: World, d: Directed, origin: Key, k: nat)
    requires var records := MatchingRows(w.rows, origin, d.0.pk, d.1);
      AllChecked(records) && Homogeneous(records, d.1) && k < |records|
    ensures var l := LookupsOf(w.rows, origin, d)[k];
      var r := MatchingRows(w.rows, origin, d.0.pk, d.1)[k];
      !RelatedRecord(w, l.0, l.1).Failed? <==> CanBeAsked(w, d, KeyText(FarKey(r, d.1)))
  {
    var records := MatchingRows(w.rows, origin, d.0.pk, d.1);
    FirstColumnExactly(records, d.0, d.1);
    RecordExactly(w, d, KeyText(FarKey(records[k], d.1)));
  }

  lemma RowOfLookup(w: World, d: Directed, origin: Key, k: nat) returns (i: nat)
    requires AllChecked(w.rows) && Homogeneous(MatchingRows(w.rows, origin, d.0.pk, d.1), d.1)
    requires k < |LookupsOf(w.rows, origin, d)|
    ensures i < |w.rows| && w.rows[i].relationship == d.0.pk && NearKey(w.rows[i], d.1) == origin
    ensures var l := LookupsOf(w.rows, origin, d)[k];
      !RelatedRecord(w, l.0, l.1).Failed? <==> CanBeAsked(w, d, KeyText(FarKey(w.rows[i], d.1)))
  {
    var records := MatchingRows(w.rows, origin, d.0.pk, d.1);
    i :| 0 <= i < |w.rows| && w.rows[i] == records[k];
    MatchesNearKey(records[k], origin, d.0.pk, d.1);
    LookupFails(w, d, origin, k);
  }

  lemma LookupOfRow(w: World, d: Directed, origin: Key, i: nat) returns (k: nat)
    requires AllChecked(w.rows) && Homogeneous(MatchingRows(w.rows, origin, d.0.pk, d.1), d.1)
    requires i < |w.rows| && w.rows[i].relationship == d.0.pk && NearKey(w.rows[i], d.1) == origin
    ensures k < |LookupsOf(w.rows, origin, d)|
    ensures var l := LookupsOf(w.rows, origin, d)[k];
      !RelatedRecord(w, l.0, l.1).Failed? <==> CanBeAsked(w, d, KeyText(FarKey(w.rows[i], d.1)))
  {
    var records := MatchingRows(w.rows, origin, d.0.pk, d.1);
    MatchesNearKey(w.rows[i], origin, d.0.pk, d.1);
    assert w.rows[i] in records;
    k :| 0 <= k < |records| && records[k] == w.rows[i];
    LookupFails(w, d, origin, k);
  }

  lemma JoinedField(w: World, relationships: seq<Directed>, origin: Key, fields: Fields, k: Text, now: Json)
    requires AllChecked(w.rows) && k in fields.Keys + KeysOf(relationships)
    requires var before := if k in KeysOf(relationships) then Arr([]) else fields[k];
      now == if before.Arr? then Arr(before.elems + NestedUnder(w, relationships, origin, k)) else before
    ensures now == Joined(w, relationships, origin, fields)[k]
  {
    var nested := NestedUnder(w, relationships, origin, k);
    if k in KeysOf(relationships) {
      assert [] + nested == nested;
    } else {
      NotNested(w, relationships, origin, k);
      UntouchedField(fields[k]);
    }
  }

  lemma UntouchedField(j: Json)
    ensures j.Arr? ==> Arr(j.elems + []) == j
  {
    if j.Arr? {
      assert j.elems + [] == j.elems;
    }
  }

  lemma {:induction false} NotNested(w: World, relationships: seq<Directed>, origin: Key, key: Text)
    requires AllChecked(w.rows) && key !in KeysOf(relationships)
    ensures NestedUnder(w, relationships, origin, key) == []
  {
    if relationships != [] {
      var n := |relationships| - 1;
      assert relationships == relationships[..n] + [relationships[n]];
      assert relationships[n].0.key in KeysOf(relationships);
      NotNested(w, relationships[..n], origin, key);
    }
  }

  /** With keys of their own, each relationship's list is its own join. */
  lemma {:induction false} DistinctKeysNested(w: World, relationships: seq<Directed>, origin: Key, i: nat)
    requires AllChecked(w.rows) && i < |relationships|
    requires forall j, k :: 0 <= j < k < |relationships| ==> relationships[j].0.key != relationships[k].0.key
    ensures NestedUnder(w, relationships, origin, relationships[i].0.key) == Nested(w, w.rows, relationships[i], origin)
  {
    var n := |relationships| - 1;
    var d, key := relationships[n], relationships[i].0.key;
    var rest := relationships[..n];
    if i < n {
      DistinctKeysNested(w, rest, origin, i);
      assert d.0.key != key;
      assert NestedUnder(w, relationships, origin, key) == NestedUnder(w, rest, origin, key) + [];
    } else {
      assert forall j :: 0 <= j < n ==> rest[j].0.key != key;
      NotNested(w, rest, origin, key);
      assert NestedUnder(w, relationships, origin, key) == [] + Nested(w, w.rows, d, origin);
    }
  }

  // ---------- a client for every lookup ----------

  /** One of the two models is remote and belongs to this service. */
  ghost predicate IsRemoteEnd(r: Relationship, service: Text) {
    (!r.related.isLocal && r.related.endpointName == service) || (!r.origin.isLocal && r.origin.endpointName == service)
  }

  /** `related_logic_modules`. */
  function RelatedLogicModules(relationships: seq<Directed>): (r: set<Text>)
    ensures forall s :: s in r <==> exists d :: d in relationships && IsRemoteEnd(d.0, s)
  {
    (set d | d in relationships && !d.0.related.isLocal :: d.0.related.endpointName) +
    (set d | d in relationships && !d.0.origin.isLocal :: d.0.origin.endpointName)
  }

  /** Local models stand on the related side only. */
  ghost predicate LocalOnlyRelated(relationships: seq<Directed>) {
    forall i :: 0 <= i < |relationships| ==> !relationships[i].0.origin.isLocal
  }

  /** Every remote lookup names a service the client map is built for. */
  lemma ClientCoverage(rows: seq<JoinRecord>, relationships: seq<Directed>, origin: Key, i: nat)
    requires LocalOnlyRelated(relationships) && i < |Lookups(rows, relationships, origin)|
    requires !Lookups(rows, relationships, origin)[i].0.related.isLocal
    ensures Lookups(rows, relationships, origin)[i].1.service in RelatedLogicModules(relationships)
  {
    LookupIsKnown(rows, relationships, origin, i);
    var lookup := Lookups(rows, relationships, origin)[i];
    var j :| 0 <= j < |relationships| && LookupOf(lookup, relationships[j]);
    assert relationships[j] in relationships;
  }

  lemma {:induction false} NoMissingClient(w: World, fields: Fields, lookups: seq<(Relationship, Params)>)
    requires forall i :: 0 <= i < |lookups| && !lookups[i].0.related.isLocal ==> lookups[i].1.service in w.specs
    ensures Followed(w, fields, lookups).1 != Some(MissingClient)
  {
    if lookups != [] {
      var n := |lookups| - 1;
      assert forall i :: 0 <= i < n ==> lookups[..n][i] == lookups[i];
      NoMissingClient(w, fields, lookups[..n]);
    }
  }

  /** So with a client for each related logic module no item fails for want of a client. */
  lemma ClientsSuffice(w: World, relationships: seq<Directed>, lookupField: Text, fields: Fields)
    requires LocalOnlyRelated(relationships) && RelatedLogicModules(relationships) <= w.specs.Keys
    ensures Extended(w, relationships, lookupField, fields).1 != Some(MissingClient)
  {
    if lookupField in fields && OriginKey(fields[lookupField]).Some? {
      var origin := OriginKey(fields[lookupField]).value;
      var lookups := Lookups(w.rows, relationships, origin);
      forall i | 0 <= i < |lookups| && !lookups[i].0.related.isLocal ensures lookups[i].1.service in w.specs {
        ClientCoverage(w.rows, relationships, origin, i);
      }
      NoMissingClient(w, Cleared(fields, relationships), lookups);
    }
  }

  /** The clients send the method of the incoming request and not the GET that the mesh asks for:
      a related record is found only where its service declares this method for records. */
  lemma MethodIsRepeated(w: World, relationship: Relationship, p: Params)
    requires !relationship.related.isLocal && !RelatedRecord(w, relationship, p).Failed?
    ensures p.service in w.specs
    ensures var operations := w.specs[p.service].operations;
      (w.verb, RecordPath(p.model, p.pk)) in operations ||
      (w.verb == OPTIONS && (GET, RecordPath(p.model, p.pk)) in operations)
  {
    PatternExactly(p.model, p.pk);
  }

  /** The loop of `_join_response_data`: one fresh client for each service. */
  method BuildClientMap(w: World, services: set<Text>) returns (clients: map<Text, SwaggerClient>)
    requires services == w.specs.Keys
    ensures GoodClients(w, clients) && forall s :: s in clients ==> fresh(clients[s])
  {
    clients := map[];
    var todo := services;
    while todo != {}
      invariant clients.Keys == services - todo && todo <= services
      invariant forall s :: s in clients ==> fresh(clients[s])
      invariant forall s :: s in clients ==> GoodClient(w, w.specs[s], clients[s])
      decreases |todo|
    {
      var service :| service in todo;
      var client := new SwaggerClient(w.specs[service], w.verb, false);
      clients := clients[service := client];
      todo := todo - {service};
    }
  }

  /** `_join_response_data`, from the items of the response on. Of the clients made for this
      response none successfully asks for a URL twice, if the request is a GET. */
  method JoinResponseData(w: World, mesh: Mesh, data: seq<DataItem>)
      returns (error: Option<Error>, ghost n: nat, ghost clients: map<Text, SwaggerClient>)
    requires mesh.Valid(w) && w.specs.Keys == RelatedLogicModules(mesh.relationships)
    requires LocalOnlyRelated(mesh.relationships)
    requires forall i, j :: 0 <= i < |data| && 0 <= j < |data| && i != j ==> data[i] != data[j]
    modifies mesh`cache, data
    ensures mesh.Valid(w)
    ensures ExtendedUpTo(ExtendedEach(w, mesh.relationships, mesh.lookupField, old(FieldsOf(data))),
                         old(FieldsOf(data)),
                         FieldsOf(data), n, error)
    ensures error != Some(MissingClient)
    ensures GoodClients(w, clients) && forall s :: s in clients ==> fresh(clients[s])
  {
    var clientMap := BuildClientMap(w, RelatedLogicModules(mesh.relationships));
    clients := clientMap;
    error, n := mesh.ExtendData(w, data, clientMap);
    if error.Some? {
      ClientsSuffice(w, mesh.relationships, mesh.lookupField, old(FieldsOf(data))[n]);
    }
  }
}
