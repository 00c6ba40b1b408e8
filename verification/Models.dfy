/** The rows of the data mesh tables. */
module Models {
  import opened Texts

  predicate IsLowerHex(c: Code) {
    '0' as int <= c <= '9' as int || 'a' as int <= c <= 'f' as int
  }

  /** The canonical spelling that `str` gives a UUID (section 3 of RFC 4122). */
  predicate IsUuid(t: Text) {
    |t| == 36 &&
    forall i :: 0 <= i < 36 ==>
      if i == 8 || i == 13 || i == 18 || i == 23 then t[i] == DASH else IsLowerHex(t[i])
  }

  /** A UUID column. */
  type Uuid = t: Text | IsUuid(t)
    witness seq(36, i => if i == 8 || i == 13 || i == 18 || i == 23 then DASH else '0' as int)

  /** A `PositiveIntegerField`. */
  type Id = n: nat | n <= 0x7FFF_FFFF

  /** A primary key of a record in some service: an integer or a UUID. */
  datatype Key = IdKey(n: nat) | UuidKey(u: Uuid)

  /** `str` of a key. */
  function KeyText(k: Key): Text {
    match k
    case IdKey(n) => Decimal(n)
    case UuidKey(u) => u
  }

  /** A key that its column can hold. */
  predicate FitsColumn(k: Key) {
    k.IdKey? ==> k.n <= 0x7FFF_FFFF
  }

  lemma KeyTextInjective(a: Key, b: Key)
    requires KeyText(a) == KeyText(b)
    ensures a == b
  {
    assert forall k: Key :: k.UuidKey? ==> KeyText(k)[8] == DASH;
    assert forall k: Key :: k.IdKey? ==> DASH !in KeyText(k);
    if a.IdKey? && b.IdKey? {
      DecimalInjective(a.n, b.n);
    }
  }

  datatype LogicModuleModel = LogicModuleModel(
    pk: nat,
    endpointName: Text,
    endpoint: Text,
    lookupField: Text,
    isLocal: bool)

  /** Foreign keys are held as the row they point to; rows are compared by `pk`. */
  datatype Relationship = Relationship(
    pk: nat,
    key: Text,
    origin: LogicModuleModel,
    related: LogicModuleModel)

  datatype JoinRecord = JoinRecord(
    pk: nat,
    relationship: nat,
    recordId: Option<Id>,
    recordUuid: Option<Uuid>,
    relatedRecordId: Option<Id>,
    relatedRecordUuid: Option<Uuid>,
    organization: Option<nat>)

  // ---------- queries ----------

  /** Places in a sequence, from front to back. */
  ghost predicate Increasing(places: seq<nat>) {
    forall i, j :: 0 <= i < j < |places| ==> places[i] < places[j]
  }

  /** The picked elements are those at the given places. */
  ghost predicate Picks<T>(all: seq<T>, places: seq<nat>, picked: seq<T>) {
    Increasing(places) && |picked| == |places| &&
    forall i :: 0 <= i < |places| ==> places[i] < |all| && picked[i] == all[places[i]]
  }

  function Shifted(places: seq<nat>): (r: seq<nat>)
    ensures |r| == |places| && forall i :: 0 <= i < |r| ==> r[i] == places[i] + 1
  {
    seq(|places|, i requires 0 <= i < |places| => places[i] + 1)
  }

  /** The places in a table, from those in its tail. */
  lemma KeptOf<T>(rows: seq<T>, rest: seq<nat>, picked: seq<T>, keepsFirst: bool) returns (kept: seq<nat>)
    requires rows != [] && Picks(rows[1..], rest, picked)
    ensures Picks(rows, kept, (if keepsFirst then [rows[0]] else []) + picked)
    ensures 0 in kept <==> keepsFirst
    ensures forall i :: 1 <= i < |rows| ==> (i in kept <==> i - 1 in rest)
  {
    kept := (if keepsFirst then [0] else []) + Shifted(rest);
    forall i | 1 <= i < |rows| ensures i in kept <==> i - 1 in rest {
      if i - 1 in rest {
        var k :| 0 <= k < |rest| && rest[k] == i - 1;
        assert Shifted(rest)[k] == i;
      }
      if i in Shifted(rest) {
        var k :| 0 <= k < |rest| && Shifted(rest)[k] == i;
        assert rest[k] == i - 1;
      }
    }
  }

  // ---------- primary keys ----------

  function RecordPks(rows: seq<JoinRecord>): (r: seq<nat>)
    ensures |r| == |rows| && forall i :: 0 <= i < |rows| ==> r[i] == rows[i].pk
  {
    seq(|rows|, i requires 0 <= i < |rows| => rows[i].pk)
  }

  function RelationshipPks(rows: seq<Relationship>): (r: seq<nat>)
    ensures |r| == |rows| && forall i :: 0 <= i < |rows| ==> r[i] == rows[i].pk
  {
    seq(|rows|, i requires 0 <= i < |rows| => rows[i].pk)
  }

  /** A primary key that is not taken. */
  function FreshPk(taken: seq<nat>): (pk: nat)
    ensures forall i :: 0 <= i < |taken| ==> taken[i] < pk
  {
    if taken == [] then 0
    else
      var n := FreshPk(taken[1..]);
      assert forall i :: 1 <= i < |taken| ==> taken[i] == taken[1..][i - 1];
      if taken[0] < n then n else taken[0] + 1
  }
}
