/** Creating and changing join records through the API (`JoinRecordSerializer`). */
module Serializers {
  import opened Texts
  import opened Models
  import opened JoinTable
  import opened Relationships

  /** A key column of the request: left out, null, or a value. */
  datatype Given<+T> = Omitted | Null | Value(value: T)

  /** The key columns of the request, all of them optional. */
  datatype Columns = Columns(
    recordId: Given<Id>,
    recordUuid: Given<Uuid>,
    relatedRecordId: Given<Id>,
    relatedRecordUuid: Given<Uuid>)

  datatype Error = MultipleRelationships | ReverseExists | MultipleRecords | IntegrityError

  datatype Result = Success(record: JoinRecord) | Failure(error: Error)

  // ---------- columns ----------

  /** The column after the request has been written over it. */
  function Assigned<T>(g: Given<T>, before: Option<T>): Option<T> {
    match g
    case Omitted => before
    case Null => None
    case Value(v) => Some(v)
  }

  /** A filter on the column; there is none when the request leaves the column out. */
  predicate Meets<T(==)>(g: Given<T>, column: Option<T>) {
    g.Omitted? || column == Assigned(g, None)
  }

  /** `setattr` for every column given. */
  function Written(r: JoinRecord, c: Columns): JoinRecord {
    r.(recordId := Assigned(c.recordId, r.recordId),
       recordUuid := Assigned(c.recordUuid, r.recordUuid),
       relatedRecordId := Assigned(c.relatedRecordId, r.relatedRecordId),
       relatedRecordUuid := Assigned(c.relatedRecordUuid, r.relatedRecordUuid))
  }

  /** The row a creation would insert: columns left out are null. */
  function Completed(pk: nat, relationship: nat, c: Columns, organization: Option<nat>): JoinRecord {
    Written(JoinRecord(pk, relationship, None, None, None, None, organization), c)
  }

  /** The lookup of `get_or_create`: relationship, organization and the columns given. */
  predicate Candidate(r: JoinRecord, relationship: nat, c: Columns, organization: Option<nat>) {
    r.relationship == relationship && r.organization == organization &&
    Meets(c.recordId, r.recordId) && Meets(c.recordUuid, r.recordUuid) &&
    Meets(c.relatedRecordId, r.relatedRecordId) && Meets(c.relatedRecordUuid, r.relatedRecordUuid)
  }

  /** The rows relate the same two records in the same relationship. */
  predicate SameKeys(r: JoinRecord, s: JoinRecord) {
    r.relationship == s.relationship && r.recordId == s.recordId && r.recordUuid == s.recordUuid &&
    r.relatedRecordId == s.relatedRecordId && r.relatedRecordUuid == s.relatedRecordUuid
  }

  /** A column after the request: as before, empty, or the given value. */
  ghost predicate HasGiven<T>(g: Given<T>, before: Option<T>, after: Option<T>) {
    match g
    case Omitted => after == before
    case Null => after == None
    case Value(v) => after == Some(v)
  }

  /** Every column the request leaves out is as before, every other one as given. */
  ghost predicate KeepsOmitted(before: JoinRecord, c: Columns, after: JoinRecord) {
    HasGiven(c.recordId, before.recordId, after.recordId) &&
    HasGiven(c.recordUuid, before.recordUuid, after.recordUuid) &&
    HasGiven(c.relatedRecordId, before.relatedRecordId, after.relatedRecordId) &&
    HasGiven(c.relatedRecordUuid, before.relatedRecordUuid, after.relatedRecordUuid)
  }

  /** The record is in the relationship, belongs to the organization and has the columns given. */
  ghost predicate Fulfils(r: JoinRecord, relationship: nat, c: Columns, organization: Option<nat>) {
    r.relationship == relationship && r.organization == organization && KeepsOmitted(r, c, r)
  }

  /** These records are the candidates; the completed row has nothing else. */
  lemma CandidateExactly(r: JoinRecord, relationship: nat, c: Columns, organization: Option<nat>)
    ensures Candidate(r, relationship, c, organization) <==> Fulfils(r, relationship, c, organization)
    ensures var blank := JoinRecord(r.pk, relationship, None, None, None, None, organization);
      var completed := Completed(r.pk, relationship, c, organization);
      KeepsOmitted(blank, c, completed) && completed.pk == r.pk && completed.relationship == relationship &&
      completed.organization == organization
  {
  }

  // ---------- get_or_create ----------

  function Candidates(rows: seq<JoinRecord>, relationship: nat, c: Columns, organization: Option<nat>)
    : (r: seq<JoinRecord>)
    ensures forall x :: x in r <==> x in rows && Candidate(x, relationship, c, organization)
  {
    if rows == [] then []
    else
      assert rows == [rows[0]] + rows[1..];
      (if Candidate(rows[0], relationship, c, organization) then [rows[0]] else []) +
      Candidates(rows[1..], relationship, c, organization)
  }

  /** The database's answer to an insertion or update: the constraints of the table. */
  predicate Accepts(rows: seq<JoinRecord>, r: JoinRecord) {
    Checked(r) && forall i :: 0 <= i < |rows| ==> rows[i].pk == r.pk || !Conflict(rows[i], r)
  }

  /** `JoinRecord.objects.get_or_create(relationship=..., organization_id=..., **columns)`. */
  function GetOrCreate(rows: seq<JoinRecord>, relationship: nat, c: Columns, organization: Option<nat>)
    : (seq<JoinRecord>, Result)
  {
    var found := Candidates(rows, relationship, c, organization);
    if |found| > 1 then (rows, Failure(MultipleRecords))
    else if |found| == 1 then (rows, Success(found[0]))
    else
      var r := Completed(FreshPk(RecordPks(rows)), relationship, c, organization);
      if Accepts(rows, r) then (rows + [r], Success(r)) else (rows, Failure(IntegrityError))
  }

  ghost predicate NoCandidate(rows: seq<JoinRecord>, relationship: nat, c: Columns, organization: Option<nat>) {
    forall i :: 0 <= i < |rows| ==> !Candidate(rows[i], relationship, c, organization)
  }

  ghost predicate OnlyCandidate(rows: seq<JoinRecord>, relationship: nat, c: Columns, organization: Option<nat>,
                                i: nat)
  {
    i < |rows| && forall j :: 0 <= j < |rows| ==> (Candidate(rows[j], relationship, c, organization) <==> j == i)
  }

  ghost predicate Several(rows: seq<JoinRecord>, relationship: nat, c: Columns, organization: Option<nat>) {
    exists i, j :: 0 <= i < j < |rows| &&
      Candidate(rows[i], relationship, c, organization) && Candidate(rows[j], relationship, c, organization)
  }

  /** No row of the table has the keys of `r`. */
  ghost predicate Unused(rows: seq<JoinRecord>, r: JoinRecord) {
    forall i :: 0 <= i < |rows| ==> !SameKeys(rows[i], r)
  }

  lemma {:induction false} SeveralCandidates(rows: seq<JoinRecord>, relationship: nat, c: Columns,
                                             organization: Option<nat>)
    requires Several(rows, relationship, c, organization)
    ensures |Candidates(rows, relationship, c, organization)| > 1
  {
    var i, j :| 0 <= i < j < |rows| &&
      Candidate(rows[i], relationship, c, organization) && Candidate(rows[j], relationship, c, organization);
    var tail := rows[1..];
    assert tail[j - 1] == rows[j];
    if i > 0 {
      assert tail[i - 1] == rows[i];
      SeveralCandidates(tail, relationship, c, organization);
    } else {
      assert rows[j] in Candidates(tail, relationship, c, organization);
    }
  }

  lemma {:induction false} TwoCandidates(rows: seq<JoinRecord>, relationship: nat, c: Columns,
                                         organization: Option<nat>) returns (i: nat, j: nat)
    requires |Candidates(rows, relationship, c, organization)| > 1
    ensures i < j < |rows|
    ensures Candidate(rows[i], relationship, c, organization) && Candidate(rows[j], relationship, c, organization)
  {
    var rest := Candidates(rows[1..], relationship, c, organization);
    if |rest| > 1 {
      i, j := TwoCandidates(rows[1..], relationship, c, organization);
      i, j := i + 1, j + 1;
    } else {
      assert rest[0] in rest;
      var k :| 0 <= k < |rows[1..]| && rows[1..][k] == rest[0];
      i, j := 0, k + 1;
    }
  }

  lemma ConflictIsSameKeys(r: JoinRecord, s: JoinRecord)
    requires Checked(r) && Checked(s)
    ensures Conflict(r, s) <==> SameKeys(r, s)
  {
  }

  lemma OneRowPerKeys(rows: seq<JoinRecord>, i: nat, j: nat)
    requires Constraints(rows) && i < |rows| && j < |rows| && SameKeys(rows[i], rows[j])
    ensures i == j
  {
    assert Checked(rows[i]) && Checked(rows[j]);
    assert i < j ==> !Conflict(rows[i], rows[j]);
    assert j < i ==> !Conflict(rows[j], rows[i]);
    ConflictIsSameKeys(rows[i], rows[j]);
    ConflictIsSameKeys(rows[j], rows[i]);
  }

  /** The database takes a new row exactly when each of its sides is named by one key and no row
      has its keys. */
  lemma AcceptsExactly(rows: seq<JoinRecord>, r: JoinRecord)
    requires Constraints(rows) && forall i :: 0 <= i < |rows| ==> rows[i].pk != r.pk
    ensures Accepts(rows, r) <==> Checked(r) && Unused(rows, r)
    ensures Accepts(rows, r) ==> Constraints(rows + [r])
  {
    if Checked(r) {
      forall i | 0 <= i < |rows| ensures Conflict(rows[i], r) <==> SameKeys(rows[i], r) {
        ConflictIsSameKeys(rows[i], r);
      }
    }
  }

  /** Whatever columns a request gives: one candidate of this organization is returned as it is;
      with several the call fails; with none a row is created exactly when the completed row names
      each side by one key and no row has its keys. */
  lemma GetOrCreateExactly(rows: seq<JoinRecord>, relationship: nat, c: Columns, organization: Option<nat>)
    requires Constraints(rows)
    ensures var (after, result) := GetOrCreate(rows, relationship, c, organization);
      var r := Completed(FreshPk(RecordPks(rows)), relationship, c, organization);
      Constraints(after) &&
      (Several(rows, relationship, c, organization) ==> result == Failure(MultipleRecords) && after == rows) &&
      (forall i: nat :: OnlyCandidate(rows, relationship, c, organization, i) ==>
        result == Success(rows[i]) && after == rows) &&
      (NoCandidate(rows, relationship, c, organization) && !(Checked(r) && Unused(rows, r)) ==>
        result == Failure(IntegrityError) && after == rows) &&
      (NoCandidate(rows, relationship, c, organization) && Checked(r) && Unused(rows, r) ==>
        result == Success(r) && after == rows + [r]) &&
      (|after| > |rows| <==> NoCandidate(rows, relationship, c, organization) && Checked(r) && Unused(rows, r))
  {
    GetOrCreateByCount(rows, relationship, c, organization);
    CandidatesExactly(rows, relationship, c, organization);
  }

  /** The same by the number of candidates. */
  lemma GetOrCreateByCount(rows: seq<JoinRecord>, relationship: nat, c: Columns, organization: Option<nat>)
    requires Constraints(rows)
    ensures var (after, result) := GetOrCreate(rows, relationship, c, organization);
      var r := Completed(FreshPk(RecordPks(rows)), relationship, c, organization);
      var found := Candidates(rows, relationship, c, organization);
      Constraints(after) &&
      (|found| > 1 ==> result == Failure(MultipleRecords) && after == rows) &&
      (|found| == 1 ==> result == Success(found[0]) && after == rows) &&
      (|found| == 0 && !(Checked(r) && Unused(rows, r)) ==> result == Failure(IntegrityError) && after == rows) &&
      (|found| == 0 && Checked(r) && Unused(rows, r) ==> result == Success(r) && after == rows + [r]) &&
      (|after| > |rows| <==> |found| == 0 && Checked(r) && Unused(rows, r))
  {
    AcceptsExactly(rows, Completed(FreshPk(RecordPks(rows)), relationship, c, organization));
  }

  lemma CandidatesExactly(rows: seq<JoinRecord>, relationship: nat, c: Columns, organization: Option<nat>)
    ensures var found := Candidates(rows, relationship, c, organization);
      (|found| == 0 <==> NoCandidate(rows, relationship, c, organization)) &&
      (|found| > 1 <==> Several(rows, relationship, c, organization)) &&
      forall i: nat :: OnlyCandidate(rows, relationship, c, organization, i) ==> |found| == 1 && found[0] == rows[i]
  {
    var found := Candidates(rows, relationship, c, organization);
    assert forall i :: 0 <= i < |rows| && Candidate(rows[i], relationship, c, organization) ==> rows[i] in found;
    if found != [] {
      assert found[0] in found;
    }
    if |found| > 1 {
      var i, j := TwoCandidates(rows, relationship, c, organization);
    } else if Several(rows, relationship, c, organization) {
      SeveralCandidates(rows, relationship, c, organization);
    }
    forall i: nat | OnlyCandidate(rows, relationship, c, organization, i)
      ensures |found| == 1 && found[0] == rows[i]
    {
      assert rows[i] in found;
    }
  }

  /** The three cases leave none out. */
  lemma CandidateCases(rows: seq<JoinRecord>, relationship: nat, c: Columns, organization: Option<nat>)
    ensures NoCandidate(rows, relationship, c, organization) || Several(rows, relationship, c, organization) ||
      exists i: nat :: OnlyCandidate(rows, relationship, c, organization, i)
  {
    if i :| 0 <= i < |rows| && Candidate(rows[i], relationship, c, organization) {
      if !Several(rows, relationship, c, organization) {
        forall j | 0 <= j < |rows| && j != i ensures !Candidate(rows[j], relationship, c, organization) {}
        assert OnlyCandidate(rows, relationship, c, organization, i);
      }
    }
  }

  /** A request that names each side by one key finds one record at most, and succeeds exactly
      when no other organization holds it: that record is neither returned nor created. */
  lemma CompleteRequestExactly(rows: seq<JoinRecord>, relationship: nat, c: Columns, organization: Option<nat>)
    requires Constraints(rows) && Checked(Completed(0, relationship, c, organization))
    ensures !Several(rows, relationship, c, organization)
    ensures GetOrCreate(rows, relationship, c, organization).1.Success? <==>
      forall i :: 0 <= i < |rows| && SameKeys(rows[i], Completed(0, relationship, c, organization)) ==>
        rows[i].organization == organization
  {
    var r := Completed(FreshPk(RecordPks(rows)), relationship, c, organization);
    forall i | 0 <= i < |rows|
      ensures Candidate(rows[i], relationship, c, organization) <==>
        SameKeys(rows[i], r) && rows[i].organization == organization
    {
      assert Checked(rows[i]);
    }
    forall i, j | 0 <= i < |rows| && 0 <= j < |rows| && SameKeys(rows[i], r) && SameKeys(rows[j], r) ensures i == j {
      OneRowPerKeys(rows, i, j);
    }
    GetOrCreateExactly(rows, relationship, c, organization);
    CandidateCases(rows, relationship, c, organization);
  }

  /** Asking again after a success changes nothing and gives the same record. */
  lemma GetOrCreateTwice(rows: seq<JoinRecord>, relationship: nat, c: Columns, organization: Option<nat>)
    requires GetOrCreate(rows, relationship, c, organization).1.Success?
    ensures var (after, result) := GetOrCreate(rows, relationship, c, organization);
      GetOrCreate(after, relationship, c, organization) == (after, result)
  {
    var found := Candidates(rows, relationship, c, organization);
    var (after, result) := GetOrCreate(rows, relationship, c, organization);
    if found == [] {
      CandidatesConcat(rows, result.record, relationship, c, organization);
    }
  }

  lemma {:induction false} CandidatesConcat(rows: seq<JoinRecord>, r: JoinRecord, relationship: nat, c: Columns,
                                            organization: Option<nat>)
    ensures Candidates(rows + [r], relationship, c, organization)
         == Candidates(rows, relationship, c, organization) +
            if Candidate(r, relationship, c, organization) then [r] else []
  {
    if rows != [] {
      assert (rows + [r])[1..] == rows[1..] + [r];
      CandidatesConcat(rows[1..], r, relationship, c, organization);
    }
  }

  // ---------- finding the relationship ----------

  predicate Joins(r: Relationship, origin: nat, related: nat) {
    r.origin.pk == origin && r.related.pk == related
  }

  function JoinsOf(rows: seq<Relationship>, origin: nat, related: nat): (r: seq<Relationship>)
    ensures forall x :: x in r <==> x in rows && Joins(x, origin, related)
  {
    if rows == [] then []
    else
      assert rows == [rows[0]] + rows[1..];
      (if Joins(rows[0], origin, related) then [rows[0]] else []) + JoinsOf(rows[1..], origin, related)
  }

  /** Why no relationship can be found or created: several lead from one model to the other, or
      none does but one leads back. */
  ghost predicate Refused(rows: seq<Relationship>, origin: nat, related: nat, error: Error) {
    match error
    case MultipleRelationships => SeveralJoin(rows, origin, related)
    case ReverseExists => !SomeJoins(rows, origin, related) && SomeJoins(rows, related, origin)
    case _ => false
  }

  ghost predicate SomeJoins(rows: seq<Relationship>, origin: nat, related: nat) {
    exists i :: 0 <= i < |rows| && rows[i].origin.pk == origin && rows[i].related.pk == related
  }

  ghost predicate SeveralJoin(rows: seq<Relationship>, origin: nat, related: nat) {
    exists i, j :: 0 <= i < j < |rows| && rows[i].origin.pk == rows[j].origin.pk == origin &&
      rows[i].related.pk == rows[j].related.pk == related
  }

  lemma {:induction false} JoinPlaces(rows: seq<Relationship>, origin: nat, related: nat) returns (places: seq<nat>)
    ensures Picks(rows, places, JoinsOf(rows, origin, related))
    ensures forall i :: 0 <= i < |rows| ==>
      (i in places <==> rows[i].origin.pk == origin && rows[i].related.pk == related)
  {
    places := [];
    if rows != [] {
      var rest := JoinPlaces(rows[1..], origin, related);
      places := KeptOf(rows, rest, JoinsOf(rows[1..], origin, related), Joins(rows[0], origin, related));
    }
  }

  lemma JoinsExactly(rows: seq<Relationship>, origin: nat, related: nat)
    ensures |JoinsOf(rows, origin, related)| > 1 <==> SeveralJoin(rows, origin, related)
    ensures JoinsOf(rows, origin, related) != [] <==> SomeJoins(rows, origin, related)
  {
    var places := JoinPlaces(rows, origin, related);
    if |places| > 1 {
      assert places[0] in places && places[1] in places && places[0] < places[1];
    }
    if SeveralJoin(rows, origin, related) {
      var i, j :| 0 <= i < j < |rows| && rows[i].origin.pk == rows[j].origin.pk == origin &&
        rows[i].related.pk == rows[j].related.pk == related;
      assert i in places && j in places;
    }
    if places != [] {
      assert places[0] in places;
    }
  }

  /** The one relationship that leads from one model to the other. */
  ghost predicate IsJoin(rows: seq<Relationship>, origin: nat, related: nat, r: Relationship) {
    r in rows && Joins(r, origin, related) && forall s :: s in rows && Joins(s, origin, related) ==> s == r
  }

  lemma OnlyJoin(rows: seq<Relationship>, origin: nat, related: nat)
    requires |JoinsOf(rows, origin, related)| == 1
    ensures IsJoin(rows, origin, related, JoinsOf(rows, origin, related)[0])
  {
    var joins := JoinsOf(rows, origin, related);
    assert joins[0] in joins;
    forall s | s in rows && Joins(s, origin, related) ensures s == joins[0] {
      assert s in joins;
    }
  }

  lemma ReversesAreJoins(rows: seq<Relationship>, r: Relationship)
    ensures ReverseCount(rows, r) == 0 <==> JoinsOf(rows, r.related.pk, r.origin.pk) == []
  {
    var back := JoinsOf(rows, r.related.pk, r.origin.pk);
    if back != [] {
      assert back[0] in back;
      var i :| 0 <= i < |rows| && rows[i] == back[0];
      assert IsReverse(r, rows[i]);
    } else {
      forall i | 0 <= i < |rows| ensures !IsReverse(r, rows[i]) {
        assert rows[i] !in back;
      }
    }
  }

  /** A relationship stored for models that none joins yet. */
  lemma NewJoin(rows: seq<Relationship>, r: Relationship)
    requires NoReverse(rows) && ReverseCount(rows, r) == 0 && JoinsOf(rows, r.origin.pk, r.related.pk) == []
    requires forall i :: 0 <= i < |rows| ==> rows[i].pk < r.pk
    ensures NoReverse(Stored(rows, r)) && IsJoin(Stored(rows, r), r.origin.pk, r.related.pk, r)
    ensures r !in rows && Stored(rows, r) == rows + [r]
  {
    StoredNoReverse(rows, r);
    StoredInPlace(rows, r);
    StoredRows(rows, r);
    var joins := JoinsOf(rows, r.origin.pk, r.related.pk);
    forall s | s in Stored(rows, r) && Joins(s, r.origin.pk, r.related.pk) ensures s == r {
      assert s !in joins;
    }
  }

  // ---------- update ----------

  /** The record after `update`, if the database takes it. */
  function Moved(r: JoinRecord, relationship: nat, c: Columns): JoinRecord {
    Written(r.(relationship := relationship), c)
  }

  /** The changed record names each side by one key, and no other row has its keys. */
  ghost predicate Fits(rows: seq<JoinRecord>, i: nat, changed: JoinRecord) {
    Checked(changed) && forall j :: 0 <= j < |rows| && j != i ==> !SameKeys(rows[j], changed)
  }

  lemma FitsExactly(rows: seq<JoinRecord>, i: nat, changed: JoinRecord)
    requires Constraints(rows) && i < |rows| && changed.pk == rows[i].pk
    ensures Accepts(rows, changed) <==> Fits(rows, i, changed)
    ensures Accepts(rows, changed) ==> Constraints(rows[i := changed])
  {
    forall j | 0 <= j < |rows| && j != i ensures rows[j].pk != changed.pk {
      assert i < j ==> rows[i].pk != rows[j].pk;
      assert j < i ==> rows[j].pk != rows[i].pk;
    }
    if Checked(changed) {
      forall j | 0 <= j < |rows|
        ensures Conflict(rows[j], changed) <==> SameKeys(rows[j], changed)
        ensures Conflict(changed, rows[j]) <==> SameKeys(rows[j], changed)
      {
        ConflictIsSameKeys(rows[j], changed);
        ConflictIsSameKeys(changed, rows[j]);
      }
    }
  }

  // ---------- the serializer ----------

  /** The two tables that the serializer writes to. */
  class Store {
    var relationships: seq<Relationship>
    var rows: seq<JoinRecord>

    constructor (relationships: seq<Relationship>, rows: seq<JoinRecord>)
      ensures this.relationships == relationships && this.rows == rows
    {
      this.relationships, this.rows := relationships, rows;
    }

    ghost predicate Valid()
      reads this
    {
      NoReverse(relationships) && Constraints(rows)
    }

    /** `Relationship.objects.get_or_create(origin_model_id=..., related_model_id=...)`: it fails
        exactly when several relationships lead from one model to the other, or none does but one
        leads back. */
    method GetOrCreateRelationship(origin: LogicModuleModel, related: LogicModuleModel)
        returns (found: Option<Relationship>, error: Error)
      requires Valid()
      modifies this`relationships
      ensures Valid()
      ensures found.None? ==>
        relationships == old(relationships) && Refused(old(relationships), origin.pk, related.pk, error)
      ensures found.Some? ==> IsJoin(relationships, origin.pk, related.pk, found.value)
      ensures found.Some? ==> forall e :: !Refused(old(relationships), origin.pk, related.pk, e)
      ensures found.Some? && SomeJoins(old(relationships), origin.pk, related.pk) ==>
        relationships == old(relationships)
      ensures found.Some? && !SomeJoins(old(relationships), origin.pk, related.pk) ==>
        relationships == old(relationships) + [found.value] &&
        found.value.origin == origin && found.value.related == related && found.value.key == []
    {
      JoinsExactly(relationships, origin.pk, related.pk);
      JoinsExactly(relationships, related.pk, origin.pk);
      error := MultipleRelationships;
      var joins := JoinsOf(relationships, origin.pk, related.pk);
      if |joins| > 1 {
        return None, MultipleRelationships;
      }
      if |joins| == 1 {
        OnlyJoin(relationships, origin.pk, related.pk);
        return Some(joins[0]), error;
      }
      var r := Relationship(FreshPk(RelationshipPks(relationships)), Lit(""), origin, related);
      ReversesAreJoins(relationships, r);
      if ReverseCount(relationships, r) != 0 {
        return None, ReverseExists;
      }
      NewJoin(relationships, r);
      relationships := Stored(relationships, r);
      return Some(r), error;
    }

    /** `JoinRecordSerializer.create`. */
    method Create(origin: LogicModuleModel, related: LogicModuleModel, c: Columns, organization: Option<nat>)
        returns (result: Result)
      requires Valid()
      modifies this
      ensures Valid() && old(rows) <= rows && old(relationships) <= relationships
      ensures forall e :: Refused(old(relationships), origin.pk, related.pk, e) ==>
        result == Failure(e) && rows == old(rows) && relationships == old(relationships)
      ensures (forall e :: !Refused(old(relationships), origin.pk, related.pk, e)) ==>
        exists r :: IsJoin(relationships, origin.pk, related.pk, r) &&
          (rows, result) == GetOrCreate(old(rows), r.pk, c, organization) &&
          (result.Success? ==> Fulfils(result.record, r.pk, c, organization))
      ensures result.Success? ==>
        result.record in rows && (rows == old(rows) || rows == old(rows) + [result.record])
      ensures result.Failure? ==> rows == old(rows)
    {
      var found, error := GetOrCreateRelationship(origin, related);
      if found.None? {
        return Failure(error);
      }
      GetOrCreateByCount(rows, found.value.pk, c, organization);
      GivesCandidate(rows, found.value.pk, c, organization);
      var (after, r) := GetOrCreate(rows, found.value.pk, c, organization);
      rows := after;
      return r;
    }

    /** `JoinRecordSerializer.update`: the record moves to the relationship of the named models and
        takes the columns given. A column left out stays, so a record may end up with two keys on
        one side; then, or when another row has its keys, the database refuses. */
    method Change(i: nat, origin: LogicModuleModel, related: LogicModuleModel, c: Columns) returns (result: Result)
      requires Valid() && i < |rows|
      modifies this
      ensures Valid() && |rows| == |old(rows)| && old(relationships) <= relationships
      ensures forall j :: 0 <= j < |rows| && j != i ==> rows[j] == old(rows)[j]
      ensures forall e :: Refused(old(relationships), origin.pk, related.pk, e) ==>
        result == Failure(e) && relationships == old(relationships)
      ensures (forall e :: !Refused(old(relationships), origin.pk, related.pk, e)) ==>
        exists r :: IsJoin(relationships, origin.pk, related.pk, r) &&
          (result.Success? ==> rows[i].relationship == r.pk) &&
          result == if Fits(old(rows), i, Moved(old(rows)[i], r.pk, c)) then Success(Moved(old(rows)[i], r.pk, c))
                    else Failure(IntegrityError)
      ensures result.Success? ==>
        rows[i] == result.record && rows[i].pk == old(rows)[i].pk &&
        rows[i].organization == old(rows)[i].organization && KeepsOmitted(old(rows)[i], c, rows[i])
      ensures result.Failure? ==> rows == old(rows)
    {
      var found, error := GetOrCreateRelationship(origin, related);
      if found.None? {
        return Failure(error);
      }
      var changed := Moved(rows[i], found.value.pk, c);
      FitsExactly(rows, i, changed);
      if !Accepts(rows, changed) {
        return Failure(IntegrityError);
      }
      rows := rows[i := changed];
      return Success(changed);
    }
  }

  /** What a success gives is a candidate for the request. */
  lemma GivesCandidate(rows: seq<JoinRecord>, relationship: nat, c: Columns, organization: Option<nat>)
    ensures var (after, result) := GetOrCreate(rows, relationship, c, organization);
      rows <= after &&
      (result.Success? ==>
        result.record in after && (after == rows || after == rows + [result.record]) &&
        Fulfils(result.record, relationship, c, organization))
  {
    var found := Candidates(rows, relationship, c, organization);
    if |found| == 1 {
      assert found[0] in found;
      CandidateExactly(found[0], relationship, c, organization);
    }
  }
}
