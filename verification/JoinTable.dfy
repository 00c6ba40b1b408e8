/** The `JoinRecord` table: its constraints, its lookups and what they mean as a relation. */
module JoinTable {
  import opened Texts
  import opened Models
  import opened Keys

  // ---------- constraints ----------

  /** The two check constraints: exactly one column of each key pair is set. */
  predicate Checked(r: JoinRecord) {
    !(r.recordId.None? && r.recordUuid.None?) && !(!r.recordId.None? && !r.recordUuid.None?) &&
    !(r.relatedRecordId.None? && r.relatedRecordUuid.None?) && !(!r.relatedRecordId.None? && !r.relatedRecordUuid.None?)
  }

  /** That is, each side is named by one key: there is one pair of keys that reads back its columns. */
  lemma CheckedExactly(r: JoinRecord)
    ensures Checked(r) <==>
      exists a, b :: NamedBy(r.recordId, r.recordUuid, a) && NamedBy(r.relatedRecordId, r.relatedRecordUuid, b)
    ensures Checked(r) ==>
      NamedBy(r.recordId, r.recordUuid, RecordKey(r)) && NamedBy(r.relatedRecordId, r.relatedRecordUuid, RelatedKey(r))
  {
    if Checked(r) {
      assert NamedBy(r.recordId, r.recordUuid, RecordKey(r));
      assert NamedBy(r.relatedRecordId, r.relatedRecordUuid, RelatedKey(r));
    }
  }

  /** The columns hold this key and nothing else. */
  ghost predicate NamedBy(id: Option<Id>, uuid: Option<Uuid>, k: Key) {
    match k
    case IdKey(n) => id.Some? && id.value == n && uuid.None?
    case UuidKey(u) => uuid.Some? && uuid.value == u && id.None?
  }

  /** SQL equality of nullable columns in a unique index: NULL differs from NULL. */
  predicate SqlEqual<T(==)>(a: Option<T>, b: Option<T>) {
    a.Some? && b.Some? && a.value == b.value
  }

  predicate ConflictIds(r: JoinRecord, s: JoinRecord) {
    r.recordUuid.None? && r.relatedRecordUuid.None? && s.recordUuid.None? && s.relatedRecordUuid.None? &&
    r.relationship == s.relationship && SqlEqual(r.recordId, s.recordId) &&
    SqlEqual(r.relatedRecordId, s.relatedRecordId)
  }

  predicate ConflictUuids(r: JoinRecord, s: JoinRecord) {
    r.recordId.None? && r.relatedRecordId.None? && s.recordId.None? && s.relatedRecordId.None? &&
    r.relationship == s.relationship && SqlEqual(r.recordUuid, s.recordUuid) &&
    SqlEqual(r.relatedRecordUuid, s.relatedRecordUuid)
  }

  predicate ConflictIdUuid(r: JoinRecord, s: JoinRecord) {
    r.recordUuid.None? && r.relatedRecordId.None? && s.recordUuid.None? && s.relatedRecordId.None? &&
    r.relationship == s.relationship && SqlEqual(r.recordId, s.recordId) &&
    SqlEqual(r.relatedRecordUuid, s.relatedRecordUuid)
  }

  predicate ConflictUuidId(r: JoinRecord, s: JoinRecord) {
    r.recordId.None? && r.relatedRecordUuid.None? && s.recordId.None? && s.relatedRecordUuid.None? &&
    r.relationship == s.relationship && SqlEqual(r.recordUuid, s.recordUuid) &&
    SqlEqual(r.relatedRecordId, s.relatedRecordId)
  }

  /** The four conditional unique constraints of the table. */
  predicate Conflict(r: JoinRecord, s: JoinRecord) {
    ConflictIds(r, s) || ConflictUuids(r, s) || ConflictIdUuid(r, s) || ConflictUuidId(r, s)
  }

  ghost predicate AllChecked(rows: seq<JoinRecord>) {
    forall i :: 0 <= i < |rows| ==> Checked(rows[i])
  }

  /** What the database keeps true of the table. */
  ghost predicate Constraints(rows: seq<JoinRecord>) {
    AllChecked(rows) &&
    (forall i, j :: 0 <= i < j < |rows| ==> rows[i].pk != rows[j].pk) &&
    forall i, j :: 0 <= i < j < |rows| ==> !Conflict(rows[i], rows[j])
  }

  // ---------- the table as a relation between tagged keys ----------

  function RecordKey(r: JoinRecord): Key
    requires Checked(r)
  {
    if r.recordId.Some? then IdKey(r.recordId.value) else UuidKey(r.recordUuid.value)
  }

  function RelatedKey(r: JoinRecord): Key
    requires Checked(r)
  {
    if r.relatedRecordId.Some? then IdKey(r.relatedRecordId.value) else UuidKey(r.relatedRecordUuid.value)
  }

  /** The key on the asking side and the key on the other side. */
  function NearKey(r: JoinRecord, forward: bool): Key
    requires Checked(r)
  {
    if forward then RecordKey(r) else RelatedKey(r)
  }

  function FarKey(r: JoinRecord, forward: bool): Key
    requires Checked(r)
  {
    NearKey(r, !forward)
  }

  /** No two rows relate the same two records in one relationship. */
  ghost predicate IsRelation(rows: seq<JoinRecord>)
    requires AllChecked(rows)
  {
    forall i, j :: 0 <= i < j < |rows| ==>
      !(rows[i].relationship == rows[j].relationship &&
        RecordKey(rows[i]) == RecordKey(rows[j]) && RelatedKey(rows[i]) == RelatedKey(rows[j]))
  }

  lemma ConflictMeansSameKeys(r: JoinRecord, s: JoinRecord)
    requires Checked(r) && Checked(s)
    ensures Conflict(r, s) <==>
      r.relationship == s.relationship && RecordKey(r) == RecordKey(s) && RelatedKey(r) == RelatedKey(s)
  {
  }

  /** The four partial constraints together leave no gap: they say exactly that rows differ in
      relationship, key or related key. */
  lemma PartialConstraintsComplete(rows: seq<JoinRecord>)
    requires AllChecked(rows)
    ensures (forall i, j :: 0 <= i < j < |rows| ==> !Conflict(rows[i], rows[j])) <==> IsRelation(rows)
  {
    forall i, j | 0 <= i < j < |rows|
      ensures Conflict(rows[i], rows[j]) <==>
        rows[i].relationship == rows[j].relationship &&
        RecordKey(rows[i]) == RecordKey(rows[j]) && RelatedKey(rows[i]) == RelatedKey(rows[j])
    {
      ConflictMeansSameKeys(rows[i], rows[j]);
    }
  }

  // ---------- lookups ----------

  /** The row test of `get_join_records`: one column, chosen by the kind of the key and the direction. */
  predicate Matches(r: JoinRecord, key: Key, relationship: nat, forward: bool) {
    r.relationship == relationship &&
    match key
    case UuidKey(u) => (if forward then r.recordUuid else r.relatedRecordUuid) == Some(u)
    case IdKey(n) => (if forward then r.recordId else r.relatedRecordId) == Some(n)
  }

  /** Exactly the matching rows, in their order. */
  function MatchingRows(rows: seq<JoinRecord>, key: Key, relationship: nat, forward: bool): (r: seq<JoinRecord>)
    ensures forall i :: 0 <= i < |r| ==> r[i] in rows && Matches(r[i], key, relationship, forward)
    ensures forall x :: x in rows && Matches(x, key, relationship, forward) ==> x in r
  {
    if rows == [] then []
    else
      assert rows == [rows[0]] + rows[1..];
      var rest := MatchingRows(rows[1..], key, relationship, forward);
      if Matches(rows[0], key, relationship, forward) then [rows[0]] + rest else rest
  }

  /** Each of them once. */
  lemma {:induction false} MatchingExactly(rows: seq<JoinRecord>, key: Key, relationship: nat, forward: bool)
      returns (places: seq<nat>)
    ensures Picks(rows, places, MatchingRows(rows, key, relationship, forward))
    ensures forall i :: 0 <= i < |rows| ==> (i in places <==> Matches(rows[i], key, relationship, forward))
  {
    places := [];
    if rows != [] {
      var rest := MatchingExactly(rows[1..], key, relationship, forward);
      var picked := MatchingRows(rows[1..], key, relationship, forward);
      places := KeptOf(rows, rest, picked, Matches(rows[0], key, relationship, forward));
      MatchingCons(rows, key, relationship, forward);
      MatchingMore(rows, key, relationship, forward, rest, places);
    }
  }

  lemma MatchingCons(rows: seq<JoinRecord>, key: Key, relationship: nat, forward: bool)
    requires rows != []
    ensures MatchingRows(rows, key, relationship, forward) ==
      (if Matches(rows[0], key, relationship, forward) then [rows[0]] else []) +
      MatchingRows(rows[1..], key, relationship, forward)
  {
    var rest := MatchingRows(rows[1..], key, relationship, forward);
    assert [] + rest == rest;
  }

  lemma MatchingMore(rows: seq<JoinRecord>, key: Key, relationship: nat, forward: bool, rest: seq<nat>,
                     places: seq<nat>)
    requires rows != [] && (0 in places <==> Matches(rows[0], key, relationship, forward))
    requires forall i :: 1 <= i < |rows| ==> (i in places <==> i - 1 in rest)
    requires forall i :: 0 <= i < |rows[1..]| ==> (i in rest <==> Matches(rows[1..][i], key, relationship, forward))
    ensures forall i :: 0 <= i < |rows| ==> (i in places <==> Matches(rows[i], key, relationship, forward))
  {
    forall i | 1 <= i < |rows| ensures i in places <==> Matches(rows[i], key, relationship, forward) {
      assert rows[i] == rows[1..][i - 1];
    }
  }

  /** `JoinRecordManager.get_join_records`: the text decides by `valid_uuid4` which column is
      asked; `None` where the filter on the integer column raises. */
  function GetJoinRecords(rows: seq<JoinRecord>, originPk: Text, relationship: nat, forward: bool)
    : (r: Option<seq<JoinRecord>>)
    ensures r.Some? <==> KeyOf(originPk).Some?
    ensures r.Some? ==>
      forall x :: x in r.value <==> x in rows && Matches(x, KeyOf(originPk).value, relationship, forward)
  {
    match KeyOf(originPk)
    case None => None
    case Some(key) => Some(MatchingRows(rows, key, relationship, forward))
  }

  datatype Column = RecordId | RecordUuid | RelatedRecordId | RelatedRecordUuid

  /** `prepare_lookup_kwargs`: the model to ask and the column that holds the far key, read off
      one join record. */
  function PrepareLookup(forward: bool, relationship: Relationship, r: JoinRecord): (LogicModuleModel, Column) {
    if forward then (relationship.related, if r.relatedRecordId.Some? then RelatedRecordId else RelatedRecordUuid)
    else (relationship.origin, if r.recordId.Some? then RecordId else RecordUuid)
  }

  /** `str(getattr(join_record, column))`. */
  function ColumnText(r: JoinRecord, c: Column): Text {
    match c
    case RecordId => if r.recordId.Some? then Decimal(r.recordId.value) else Lit("None")
    case RecordUuid => if r.recordUuid.Some? then r.recordUuid.value else Lit("None")
    case RelatedRecordId => if r.relatedRecordId.Some? then Decimal(r.relatedRecordId.value) else Lit("None")
    case RelatedRecordUuid => if r.relatedRecordUuid.Some? then r.relatedRecordUuid.value else Lit("None")
  }

  function ColumnTexts(records: seq<JoinRecord>, c: Column): (r: seq<Text>)
    ensures |r| == |records|
    ensures forall i :: 0 <= i < |r| ==> r[i] == ColumnText(records[i], c)
  {
    seq(|records|, i requires 0 <= i < |records| => ColumnText(records[i], c))
  }

  /** The primary keys asked for: the column is chosen by the first record, for all of them. */
  function PksOf(records: seq<JoinRecord>, relationship: Relationship, forward: bool): (r: seq<Text>)
    ensures |r| == |records|
  {
    if records == [] then [] else ColumnTexts(records, PrepareLookup(forward, relationship, records[0]).1)
  }

  /** The same, from the text of a key on. */
  function RelatedPks(rows: seq<JoinRecord>, originPk: Text, relationship: Relationship, forward: bool)
    : Option<seq<Text>>
  {
    match GetJoinRecords(rows, originPk, relationship.pk, forward)
    case None => None
    case Some(records) => Some(PksOf(records, relationship, forward))
  }

  /** The keys on the other side, as the relation has them. */
  function FarTexts(records: seq<JoinRecord>, forward: bool): (r: seq<Text>)
    requires forall i :: 0 <= i < |records| ==> Checked(records[i])
    ensures |r| == |records|
    ensures forall i :: 0 <= i < |r| ==> r[i] == KeyText(FarKey(records[i], forward))
  {
    seq(|records|, i requires 0 <= i < |records| => KeyText(FarKey(records[i], forward)))
  }

  ghost predicate Homogeneous(records: seq<JoinRecord>, forward: bool)
    requires forall i :: 0 <= i < |records| ==> Checked(records[i])
  {
    forall i :: 0 <= i < |records| ==> FarKey(records[i], forward).IdKey? == FarKey(records[0], forward).IdKey?
  }

  lemma NoneIsNoKey(k: Key)
    ensures KeyText(k) != Lit("None")
  {
    assert Lit("None")[0] == 'N' as int && |Lit("None")| == 4;
  }

  lemma ColumnOfFirst(first: JoinRecord, r: JoinRecord, forward: bool, relationship: Relationship)
    requires Checked(first) && Checked(r)
    ensures ColumnText(r, PrepareLookup(forward, relationship, first).1) ==
      if FarKey(r, forward).IdKey? == FarKey(first, forward).IdKey? then KeyText(FarKey(r, forward)) else Lit("None")
  {
  }

  lemma FirstColumnExactly(records: seq<JoinRecord>, relationship: Relationship, forward: bool)
    requires forall i :: 0 <= i < |records| ==> Checked(records[i])
    ensures PksOf(records, relationship, forward) == FarTexts(records, forward) <==> Homogeneous(records, forward)
  {
    var pks, far := PksOf(records, relationship, forward), FarTexts(records, forward);
    forall i | 0 <= i < |records|
      ensures pks[i] == far[i] <==> FarKey(records[i], forward).IdKey? == FarKey(records[0], forward).IdKey?
    {
      ColumnOfFirst(records[0], records[i], forward, relationship);
      NoneIsNoKey(FarKey(records[i], forward));
    }
  }

  /** Looking a record up by its key gives the keys on the other side exactly when its key is
      recognised and all far keys have the kind of the first. */
  lemma FirstRecordExactly(rows: seq<JoinRecord>, key: Key, relationship: Relationship, forward: bool)
    requires AllChecked(rows) && FitsColumn(key)
    ensures var records := MatchingRows(rows, key, relationship.pk, forward);
      RelatedPks(rows, KeyText(key), relationship, forward) == Some(FarTexts(records, forward)) <==>
      Recognised(key) && Homogeneous(records, forward)
  {
    KeyOfExactly(key);
    ColumnKeyRecognised(key);
    FirstColumnExactly(MatchingRows(rows, key, relationship.pk, forward), relationship, forward);
  }

  // ---------- direction symmetry ----------

  /** How many rows relate `a` to `b`. */
  function Occurrences(rows: seq<JoinRecord>, relationship: nat, a: Key, b: Key): nat
    requires AllChecked(rows)
  {
    if rows == [] then 0
    else
      (if rows[0].relationship == relationship && RecordKey(rows[0]) == a && RelatedKey(rows[0]) == b then 1 else 0) +
      Occurrences(rows[1..], relationship, a, b)
  }

  lemma MatchesNearKey(r: JoinRecord, origin: Key, relationship: nat, forward: bool)
    requires Checked(r)
    ensures Matches(r, origin, relationship, forward) <==>
      r.relationship == relationship && NearKey(r, forward) == origin
  {
  }

  lemma FarTextsCons(r: JoinRecord, rest: seq<JoinRecord>, forward: bool)
    requires Checked(r) && AllChecked(rest)
    ensures FarTexts([r] + rest, forward) == [KeyText(FarKey(r, forward))] + FarTexts(rest, forward)
  {
  }

  lemma FarCountCons(r: JoinRecord, rest: seq<JoinRecord>, forward: bool, far: Key)
    requires Checked(r) && AllChecked(rest)
    ensures multiset(FarTexts([r] + rest, forward))[KeyText(far)]
         == multiset(FarTexts(rest, forward))[KeyText(far)] + if FarKey(r, forward) == far then 1 else 0
  {
    var t := KeyText(FarKey(r, forward));
    FarTextsCons(r, rest, forward);
    assert multiset([t] + FarTexts(rest, forward)) == multiset{t} + multiset(FarTexts(rest, forward));
    if t == KeyText(far) {
      KeyTextInjective(FarKey(r, forward), far);
    }
  }

  lemma {:induction false} FarCount(rows: seq<JoinRecord>, relationship: nat, forward: bool, near: Key, far: Key)
    requires AllChecked(rows)
    ensures multiset(FarTexts(MatchingRows(rows, near, relationship, forward), forward))[KeyText(far)]
         == if forward then Occurrences(rows, relationship, near, far) else Occurrences(rows, relationship, far, near)
  {
    if rows == [] {
      assert FarTexts([], forward) == [];
    } else {
      FarCount(rows[1..], relationship, forward, near, far);
      MatchesNearKey(rows[0], near, relationship, forward);
      if Matches(rows[0], near, relationship, forward) {
        FarCountCons(rows[0], MatchingRows(rows[1..], near, relationship, forward), forward, far);
      }
    }
  }

  lemma ColumnTextsCons(r: JoinRecord, rest: seq<JoinRecord>, c: Column)
    ensures ColumnTexts([r] + rest, c) == [ColumnText(r, c)] + ColumnTexts(rest, c)
  {
  }

  /** The column chosen by one record shows a far key as often as it is there, or never. */
  lemma {:induction false} ColumnCount(first: JoinRecord, records: seq<JoinRecord>, relationship: Relationship,
                                       forward: bool, far: Key)
    requires Checked(first) && AllChecked(records)
    ensures multiset(ColumnTexts(records, PrepareLookup(forward, relationship, first).1))[KeyText(far)]
         == if FarKey(first, forward).IdKey? == far.IdKey? then multiset(FarTexts(records, forward))[KeyText(far)]
            else 0
  {
    var c := PrepareLookup(forward, relationship, first).1;
    if records == [] {
      assert ColumnTexts(records, c) == [] && FarTexts(records, forward) == [];
    } else {
      var r, rest := records[0], records[1..];
      assert records == [r] + rest;
      ColumnCount(first, rest, relationship, forward, far);
      ColumnOfFirst(first, r, forward, relationship);
      NoneIsNoKey(far);
      SameTextSameKey(FarKey(r, forward), far);
      ColumnTextsCons(r, rest, c);
      FarTextsCons(r, rest, forward);
      CountCons(ColumnText(r, c), ColumnTexts(rest, c), KeyText(far));
      CountCons(KeyText(FarKey(r, forward)), FarTexts(rest, forward), KeyText(far));
    }
  }

  lemma SameTextSameKey(k: Key, l: Key)
    ensures KeyText(k) == KeyText(l) <==> k == l
  {
    if KeyText(k) == KeyText(l) {
      KeyTextInjective(k, l);
    }
  }

  lemma CountCons(t: Text, rest: seq<Text>, x: Text)
    ensures multiset([t] + rest)[x] == multiset(rest)[x] + if t == x then 1 else 0
  {
    assert multiset([t] + rest) == multiset{t} + multiset(rest);
  }

  /** The first of the matching rows has a far key of this kind. */
  predicate FirstHasKind(rows: seq<JoinRecord>, relationship: nat, forward: bool, near: Key, far: Key)
    requires AllChecked(rows)
  {
    var records := MatchingRows(rows, near, relationship, forward);
    records != [] && FarKey(records[0], forward).IdKey? == far.IdKey?
  }

  /** How often a lookup finds a key. */
  lemma LookupCount(rows: seq<JoinRecord>, relationship: Relationship, forward: bool, near: Key, far: Key)
    requires AllChecked(rows)
    ensures multiset(PksOf(MatchingRows(rows, near, relationship.pk, forward), relationship, forward))[KeyText(far)] ==
      if !FirstHasKind(rows, relationship.pk, forward, near, far) then 0
      else if forward then Occurrences(rows, relationship.pk, near, far)
      else Occurrences(rows, relationship.pk, far, near)
  {
    var records := MatchingRows(rows, near, relationship.pk, forward);
    FarCount(rows, relationship.pk, forward, near, far);
    if records != [] {
      ColumnCount(records[0], records, relationship, forward, far);
    }
  }

  lemma {:induction false} AtMostOnce(rows: seq<JoinRecord>, relationship: nat, a: Key, b: Key)
    requires AllChecked(rows) && IsRelation(rows)
    ensures Occurrences(rows, relationship, a, b) <= 1
    ensures Occurrences(rows, relationship, a, b) == 1 ==>
      exists i :: 0 <= i < |rows| &&
        rows[i].relationship == relationship && RecordKey(rows[i]) == a && RelatedKey(rows[i]) == b
  {
    if rows != [] {
      AtMostOnce(rows[1..], relationship, a, b);
      if Occurrences(rows[1..], relationship, a, b) == 1 {
        var i :| 0 <= i < |rows[1..]| && rows[1..][i].relationship == relationship &&
          RecordKey(rows[1..][i]) == a && RelatedKey(rows[1..][i]) == b;
        assert rows[i + 1] == rows[1..][i];
      }
    }
  }

  /** Both lookups succeed, and `b` is found from `a` as often as `a` from `b`. */
  predicate Symmetric(rows: seq<JoinRecord>, relationship: Relationship, a: Key, b: Key) {
    var there := RelatedPks(rows, KeyText(a), relationship, true);
    var back := RelatedPks(rows, KeyText(b), relationship, false);
    there.Some? && back.Some? && multiset(there.value)[KeyText(b)] == multiset(back.value)[KeyText(a)]
  }

  /** A relationship reads the same from both ends exactly when both keys are recognised and, if it
      relates the two, either end or neither has a first record that shows the other's kind. */
  lemma DirectionSymmetryExactly(rows: seq<JoinRecord>, relationship: Relationship, a: Key, b: Key)
    requires Constraints(rows) && FitsColumn(a) && FitsColumn(b)
    ensures Symmetric(rows, relationship, a, b) <==>
      Recognised(a) && Recognised(b) &&
      (Occurrences(rows, relationship.pk, a, b) == 0 ||
       (FirstHasKind(rows, relationship.pk, true, a, b) <==> FirstHasKind(rows, relationship.pk, false, b, a)))
    ensures var there := RelatedPks(rows, KeyText(a), relationship, true);
      there.Some? ==> multiset(there.value)[KeyText(b)] <= 1
  {
    KeyOfExactly(a);
    KeyOfExactly(b);
    ColumnKeyRecognised(a);
    ColumnKeyRecognised(b);
    LookupCount(rows, relationship, true, a, b);
    LookupCount(rows, relationship, false, b, a);
    PartialConstraintsComplete(rows);
    AtMostOnce(rows, relationship.pk, a, b);
  }

  /** Where far keys have one kind, recognising both keys is all it takes. */
  lemma DirectionSymmetry(rows: seq<JoinRecord>, relationship: Relationship, a: Key, b: Key)
    requires Constraints(rows) && FitsColumn(a) && FitsColumn(b)
    requires Homogeneous(MatchingRows(rows, a, relationship.pk, true), true)
    requires Homogeneous(MatchingRows(rows, b, relationship.pk, false), false)
    ensures Symmetric(rows, relationship, a, b) <==> Recognised(a) && Recognised(b)
  {
    DirectionSymmetryExactly(rows, relationship, a, b);
    PartialConstraintsComplete(rows);
    AtMostOnce(rows, relationship.pk, a, b);
    if Occurrences(rows, relationship.pk, a, b) == 1 {
      var i :| 0 <= i < |rows| && rows[i].relationship == relationship.pk &&
        RecordKey(rows[i]) == a && RelatedKey(rows[i]) == b;
      MatchesNearKey(rows[i], a, relationship.pk, true);
      MatchesNearKey(rows[i], b, relationship.pk, false);
      HasKindOfRow(MatchingRows(rows, a, relationship.pk, true), rows[i], true);
      HasKindOfRow(MatchingRows(rows, b, relationship.pk, false), rows[i], false);
    }
  }

  lemma HasKindOfRow(records: seq<JoinRecord>, r: JoinRecord, forward: bool)
    requires (forall i :: 0 <= i < |records| ==> Checked(records[i])) && Homogeneous(records, forward) && r in records
    ensures Checked(r) && FarKey(records[0], forward).IdKey? == FarKey(r, forward).IdKey?
  {
  }

  /** A record that a UUID of another version stands for is found, and finds nothing: asked for its
      own relations, it makes the filter raise. */
  lemma OtherVersionNotRecognised(relationship: Relationship, n: Id, u: Uuid)
    requires !IsVersion4(u)
    ensures var rows := [JoinRecord(0, relationship.pk, Some(n), None, None, Some(u), None)];
      Constraints(rows) &&
      RelatedPks(rows, KeyText(IdKey(n)), relationship, true) == Some([u]) &&
      RelatedPks(rows, u, relationship, false) == None
  {
    var rows := [JoinRecord(0, relationship.pk, Some(n), None, None, Some(u), None)];
    KeyOfExactly(IdKey(n));
    ColumnKeyRecognised(IdKey(n));
    KeyOfExactly(UuidKey(u));
    assert rows[1..] == [];
    assert MatchingRows(rows, IdKey(n), relationship.pk, true) == rows;
    assert PksOf(rows, relationship, true) == [u];
  }

  /** For example the UUID of the DNS name space. */
  lemma NamespaceNotRecognised(relationship: Relationship)
    ensures IsUuid(NAMESPACE_DNS)
    ensures var rows := [JoinRecord(0, relationship.pk, Some(5), None, None, Some(NAMESPACE_DNS), None)];
      Constraints(rows) && !Symmetric(rows, relationship, IdKey(5), UuidKey(NAMESPACE_DNS))
  {
    NamespaceUuid();
    OtherVersionNotRecognised(relationship, 5, NAMESPACE_DNS);
  }
}
