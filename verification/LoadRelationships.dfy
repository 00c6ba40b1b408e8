/** The `loadrelationships` command: reconciling one relationship's join records with a file. */
module LoadRelationships {
  import opened Texts
  import opened Models
  import opened JoinTable

  /** A contact of the file; an empty or missing list of site profiles is `[]`. */
  datatype Contact = Contact(pk: Uuid, organization: nat, siteprofiles: seq<Uuid>)

  /** A join record the file asks for. */
  datatype Entry = Entry(record: Uuid, related: Uuid, organization: nat)

  // ---------- what the file asks for ----------

  function EntriesOf(contact: Contact, profiles: seq<Uuid>): (r: seq<Entry>)
    ensures |r| == |profiles|
    ensures forall i :: 0 <= i < |r| ==> r[i] == Entry(contact.pk, profiles[i], contact.organization)
  {
    seq(|profiles|, i requires 0 <= i < |profiles| => Entry(contact.pk, profiles[i], contact.organization))
  }

  /** All entries in the order of the file; contacts of unknown organizations are skipped. */
  function Entries(contacts: seq<Contact>, organizations: set<nat>): seq<Entry> {
    if contacts == [] then []
    else
      var c := contacts[|contacts| - 1];
      Entries(contacts[..|contacts| - 1], organizations) +
      if c.organization in organizations then EntriesOf(c, c.siteprofiles) else []
  }

  /** The pairs of the file: a contact of a known organization and one of its site profiles. */
  ghost predicate Wanted(contacts: seq<Contact>, organizations: set<nat>, u: Uuid, v: Uuid) {
    exists i :: 0 <= i < |contacts| && contacts[i].organization in organizations &&
      contacts[i].pk == u && v in contacts[i].siteprofiles
  }

  ghost predicate Lists(entries: seq<Entry>, u: Uuid, v: Uuid) {
    exists i :: 0 <= i < |entries| && entries[i].record == u && entries[i].related == v
  }

  lemma {:induction false} EntriesListWanted(contacts: seq<Contact>, organizations: set<nat>, u: Uuid, v: Uuid)
    ensures Lists(Entries(contacts, organizations), u, v) <==> Wanted(contacts, organizations, u, v)
  {
    if contacts != [] {
      var n := |contacts| - 1;
      var c := contacts[n];
      var before := Entries(contacts[..n], organizations);
      var all := Entries(contacts, organizations);
      EntriesListWanted(contacts[..n], organizations, u, v);
      if Lists(before, u, v) {
        var i :| 0 <= i < |before| && before[i].record == u && before[i].related == v;
        assert all[i] == before[i];
        var j :| 0 <= j < n && contacts[..n][j].organization in organizations &&
          contacts[..n][j].pk == u && v in contacts[..n][j].siteprofiles;
        assert contacts[j] == contacts[..n][j];
      } else if c.organization in organizations && c.pk == u && v in c.siteprofiles {
        var k :| 0 <= k < |c.siteprofiles| && c.siteprofiles[k] == v;
        assert all[|before| + k] == EntriesOf(c, c.siteprofiles)[k];
      } else {
        forall i | 0 <= i < |all| ensures !(all[i].record == u && all[i].related == v) {
          if i < |before| {
            assert all[i] == before[i];
          } else {
            assert all[i] == EntriesOf(c, c.siteprofiles)[i - |before|];
          }
        }
        forall j | 0 <= j < |contacts|
          ensures !(contacts[j].organization in organizations && contacts[j].pk == u && v in contacts[j].siteprofiles)
        {
          if j < n { assert contacts[j] == contacts[..n][j]; }
        }
      }
    }
  }

  // ---------- get_or_create ----------

  predicate HasPair(r: JoinRecord, relationship: nat, u: Uuid, v: Uuid) {
    r.relationship == relationship && r.recordUuid == Some(u) && r.relatedRecordUuid == Some(v)
  }

  /** The place of the first row with this pair, `|rows|` when there is none. */
  function Find(rows: seq<JoinRecord>, relationship: nat, u: Uuid, v: Uuid): (i: nat)
    ensures i <= |rows|
    ensures i < |rows| ==> HasPair(rows[i], relationship, u, v)
    ensures forall j :: 0 <= j < i ==> !HasPair(rows[j], relationship, u, v)
  {
    if rows == [] || HasPair(rows[0], relationship, u, v) then 0 else 1 + Find(rows[1..], relationship, u, v)
  }

  function NewRow(rows: seq<JoinRecord>, relationship: nat, e: Entry): JoinRecord {
    var pk := FreshPk(RecordPks(rows));
    JoinRecord(pk, relationship, None, Some(e.record), None, Some(e.related), Some(e.organization))
  }

  function GetOrCreate(rows: seq<JoinRecord>, relationship: nat, e: Entry): seq<JoinRecord> {
    if Find(rows, relationship, e.record, e.related) < |rows| then rows else rows + [NewRow(rows, relationship, e)]
  }

  function Loaded(rows: seq<JoinRecord>, relationship: nat, entries: seq<Entry>): seq<JoinRecord> {
    if entries == [] then rows
    else GetOrCreate(Loaded(rows, relationship, entries[..|entries| - 1]), relationship, entries[|entries| - 1])
  }

  /** `eligible_join_records`: the row each entry was given, in order. */
  function Eligible(rows: seq<JoinRecord>, relationship: nat, entries: seq<Entry>): seq<nat> {
    if entries == [] then []
    else
      var e := entries[|entries| - 1];
      var after := Loaded(rows, relationship, entries);
      var i := Find(after, relationship, e.record, e.related);
      Eligible(rows, relationship, entries[..|entries| - 1]) + if i < |after| then [after[i].pk] else []
  }

  /** The final `delete`: rows of the relationship that are not eligible go. */
  function Pruned(rows: seq<JoinRecord>, relationship: nat, eligible: seq<nat>): seq<JoinRecord> {
    if rows == [] then []
    else
      (if rows[0].relationship == relationship && rows[0].pk !in eligible then [] else [rows[0]]) +
      Pruned(rows[1..], relationship, eligible)
  }

  /** The table after one run of the command. */
  function Reconciled(rows: seq<JoinRecord>, relationship: nat, entries: seq<Entry>): seq<JoinRecord> {
    Pruned(Loaded(rows, relationship, entries), relationship, Eligible(rows, relationship, entries))
  }

  // ---------- the command ----------

  function Known(contacts: seq<Contact>, organizations: set<nat>): nat {
    if contacts == [] then 0
    else
      Known(contacts[..|contacts| - 1], organizations) +
      if contacts[|contacts| - 1].organization in organizations then 1 else 0
  }

  /** The contacts of known organizations, by their places in the file. */
  ghost function KnownPlaces(contacts: seq<Contact>, organizations: set<nat>): set<nat> {
    set i: nat | i < |contacts| && contacts[i].organization in organizations
  }

  lemma {:induction false} KnownCounts(contacts: seq<Contact>, organizations: set<nat>)
    ensures Known(contacts, organizations) == |KnownPlaces(contacts, organizations)|
  {
    if contacts != [] {
      var n := |contacts| - 1;
      var before := KnownPlaces(contacts[..n], organizations);
      KnownCounts(contacts[..n], organizations);
      assert KnownPlaces(contacts, organizations) ==
        if contacts[n].organization in organizations then before + {n} else before;
    }
  }

  class Command {
    var counter: nat
    /** The join record table. */
    var rows: seq<JoinRecord>

    constructor (table: seq<JoinRecord>)
      ensures counter == 0 && rows == table
    {
      counter, rows := 0, table;
    }

    /** `JoinRecord.objects.get_or_create`: with the constraints in force the lookup finds one row
        at most and the insertion breaks no constraint. */
    method GetOrCreateRow(relationship: nat, e: Entry) returns (record: JoinRecord)
      requires Constraints(rows)
      modifies this`rows
      ensures Constraints(rows) && rows == GetOrCreate(old(rows), relationship, e)
      ensures record in rows && HasPair(record, relationship, e.record, e.related)
      ensures var i := Find(rows, relationship, e.record, e.related); i < |rows| && rows[i] == record
    {
      var i := Find(rows, relationship, e.record, e.related);
      if i < |rows| {
        return rows[i];
      }
      CreateKeepsConstraints(rows, relationship, e);
      FindCreated(rows, relationship, e);
      record := NewRow(rows, relationship, e);
      rows := rows + [record];
    }

    /** The inner loop of `handle`: the entries of one contact, after those in `done`. */
    method LoadContact(relationship: nat, contact: Contact, eligible: seq<nat>, ghost before: seq<JoinRecord>,
                       ghost done: seq<Entry>) returns (grown: seq<nat>)
      requires Constraints(rows)
      requires rows == Loaded(before, relationship, done) && eligible == Eligible(before, relationship, done)
      modifies this`rows
      ensures Constraints(rows)
      ensures var entries := done + EntriesOf(contact, contact.siteprofiles);
        rows == Loaded(before, relationship, entries) && grown == Eligible(before, relationship, entries)
    {
      grown := eligible;
      ghost var entries := done;
      for j := 0 to |contact.siteprofiles|
        invariant Constraints(rows) && entries == done + EntriesOf(contact, contact.siteprofiles[..j])
        invariant rows == Loaded(before, relationship, entries) && grown == Eligible(before, relationship, entries)
      {
        var e := Entry(contact.pk, contact.siteprofiles[j], contact.organization);
        LoadOneMore(before, relationship, entries, e);
        var joinRecord := GetOrCreateRow(relationship, e);
        grown := grown + [joinRecord.pk];
        NextEntry(done, contact, j);
        entries := entries + [e];
      }
      assert contact.siteprofiles[..|contact.siteprofiles|] == contact.siteprofiles;
    }

    /** `handle`, on the parsed file and the relationship it belongs to. */
    method Handle(contacts: seq<Contact>, organizations: set<nat>, relationship: nat)
      requires Constraints(rows)
      modifies this
      ensures rows == Reconciled(old(rows), relationship, Entries(contacts, organizations))
      ensures Constraints(rows)
      ensures counter == old(counter) + |KnownPlaces(contacts, organizations)|
    {
      var eligible: seq<nat> := [];
      ghost var before, start, done := rows, counter, [];
      for i := 0 to |contacts|
        invariant Constraints(rows) && done == Entries(contacts[..i], organizations)
        invariant rows == Loaded(before, relationship, done) && eligible == Eligible(before, relationship, done)
        invariant counter == start + Known(contacts[..i], organizations)
      {
        var contact := contacts[i];
        NextContact(contacts, organizations, i);
        if contact.organization in organizations {
          counter := counter + 1;
          eligible := LoadContact(relationship, contact, eligible, before, done);
          done := done + EntriesOf(contact, contact.siteprofiles);
        }
      }
      assert contacts[..|contacts|] == contacts;
      KnownCounts(contacts, organizations);
      PruneKeepsConstraints(rows, relationship, eligible);
      rows := Pruned(rows, relationship, eligible);
    }
  }

  // ---------- steps of the loops ----------

  lemma NextContact(contacts: seq<Contact>, organizations: set<nat>, i: nat)
    requires i < |contacts|
    ensures Entries(contacts[..i + 1], organizations) == Entries(contacts[..i], organizations) +
      if contacts[i].organization in organizations then EntriesOf(contacts[i], contacts[i].siteprofiles) else []
    ensures Known(contacts[..i + 1], organizations) == Known(contacts[..i], organizations) +
      if contacts[i].organization in organizations then 1 else 0
    ensures contacts[i].organization !in organizations ==>
      Entries(contacts[..i + 1], organizations) == Entries(contacts[..i], organizations)
  {
    assert contacts[..i + 1][..i] == contacts[..i];
  }

  lemma NextEntry(done: seq<Entry>, contact: Contact, j: nat)
    requires j < |contact.siteprofiles|
    ensures done + EntriesOf(contact, contact.siteprofiles[..j + 1]) ==
      (done + EntriesOf(contact, contact.siteprofiles[..j])) +
      [Entry(contact.pk, contact.siteprofiles[j], contact.organization)]
  {
  }

  lemma LoadOneMore(rows: seq<JoinRecord>, relationship: nat, entries: seq<Entry>, e: Entry)
    ensures var after := GetOrCreate(Loaded(rows, relationship, entries), relationship, e);
      Loaded(rows, relationship, entries + [e]) == after &&
      var i := Find(after, relationship, e.record, e.related);
      (i < |after| ==>
        Eligible(rows, relationship, entries + [e]) == Eligible(rows, relationship, entries) + [after[i].pk])
  {
    assert (entries + [e])[..|entries|] == entries;
  }

  // ---------- constraints ----------

  lemma FindCreated(rows: seq<JoinRecord>, relationship: nat, e: Entry)
    requires Find(rows, relationship, e.record, e.related) == |rows|
    ensures Find(rows + [NewRow(rows, relationship, e)], relationship, e.record, e.related) == |rows|
  {
    var after := rows + [NewRow(rows, relationship, e)];
    assert forall k :: 0 <= k < |rows| ==> after[k] == rows[k];
    assert HasPair(after[|rows|], relationship, e.record, e.related);
  }

  lemma CreateKeepsConstraints(rows: seq<JoinRecord>, relationship: nat, e: Entry)
    requires Constraints(rows)
    ensures Constraints(GetOrCreate(rows, relationship, e))
  {
    var r := NewRow(rows, relationship, e);
    if Find(rows, relationship, e.record, e.related) == |rows| {
      forall i | 0 <= i < |rows| ensures !Conflict(rows[i], r) && rows[i].pk != r.pk {
        assert !HasPair(rows[i], relationship, e.record, e.related);
      }
    }
  }

  lemma {:induction false} PrunedRows(rows: seq<JoinRecord>, relationship: nat, eligible: seq<nat>, r: JoinRecord)
    ensures r in Pruned(rows, relationship, eligible) <==>
      r in rows && (r.relationship != relationship || r.pk in eligible)
  {
    if rows != [] {
      PrunedRows(rows[1..], relationship, eligible, r);
      assert rows == [rows[0]] + rows[1..];
    }
  }

  lemma TailConstraints(rows: seq<JoinRecord>)
    requires rows != [] && Constraints(rows)
    ensures Constraints(rows[1..])
  {
    assert forall i :: 0 <= i < |rows[1..]| ==> rows[1..][i] == rows[i + 1];
  }

  lemma ConsConstraints(r: JoinRecord, rest: seq<JoinRecord>)
    requires Checked(r) && Constraints(rest)
    requires forall j :: 0 <= j < |rest| ==> rest[j].pk != r.pk && !Conflict(r, rest[j])
    ensures Constraints([r] + rest)
  {
  }

  lemma {:induction false} PruneKeepsConstraints(rows: seq<JoinRecord>, relationship: nat, eligible: seq<nat>)
    requires Constraints(rows)
    ensures Constraints(Pruned(rows, relationship, eligible))
  {
    if rows != [] {
      TailConstraints(rows);
      PruneKeepsConstraints(rows[1..], relationship, eligible);
      var rest := Pruned(rows[1..], relationship, eligible);
      forall j | 0 <= j < |rest| ensures rest[j].pk != rows[0].pk && !Conflict(rows[0], rest[j]) {
        PrunedRows(rows[1..], relationship, eligible, rest[j]);
        var k :| 0 <= k < |rows[1..]| && rows[1..][k] == rest[j];
        assert rows[k + 1] == rest[j];
      }
      ConsConstraints(rows[0], rest);
      assert [] + rest == rest;
    }
  }

  lemma {:induction false} LoadKeepsConstraints(rows: seq<JoinRecord>, relationship: nat, entries: seq<Entry>)
    requires Constraints(rows)
    ensures Constraints(Loaded(rows, relationship, entries))
    ensures rows <= Loaded(rows, relationship, entries)
  {
    if entries != [] {
      LoadKeepsConstraints(rows, relationship, entries[..|entries| - 1]);
      var before := Loaded(rows, relationship, entries[..|entries| - 1]);
      CreateKeepsConstraints(before, relationship, entries[|entries| - 1]);
    }
  }

  lemma SamePairSameRow(rows: seq<JoinRecord>, relationship: nat, u: Uuid, v: Uuid, i: nat, j: nat)
    requires Constraints(rows) && i < |rows| && j < |rows|
    requires HasPair(rows[i], relationship, u, v) && HasPair(rows[j], relationship, u, v)
    ensures i == j
  {
    assert Checked(rows[i]) && Checked(rows[j]);
    assert ConflictUuids(rows[i], rows[j]) && ConflictUuids(rows[j], rows[i]);
    assert i < j ==> !Conflict(rows[i], rows[j]);
    assert j < i ==> !Conflict(rows[j], rows[i]);
  }

  // ---------- what the load puts in ----------

  /** A loaded row was there before, or was created for the first entry with its pair. */
  lemma {:induction false} LoadedRow(rows: seq<JoinRecord>, relationship: nat, entries: seq<Entry>, r: JoinRecord)
    requires r in Loaded(rows, relationship, entries)
    ensures r in rows || exists i :: 0 <= i < |entries| && CreatedFor(r, relationship, entries, i)
  {
    if entries != [] && r !in rows {
      var n := |entries| - 1;
      var before := Loaded(rows, relationship, entries[..n]);
      if r in before {
        LoadedRow(rows, relationship, entries[..n], r);
        var i :| 0 <= i < n && CreatedFor(r, relationship, entries[..n], i);
        assert CreatedFor(r, relationship, entries, i) by {
          assert forall j :: 0 <= j <= i ==> entries[..n][j] == entries[j];
        }
      } else {
        assert r == NewRow(before, relationship, entries[n]);
        forall j | 0 <= j < n
          ensures !(entries[j].record == entries[n].record && entries[j].related == entries[n].related)
        {
          EntryIsLoaded(rows, relationship, entries[..n], j);
          assert entries[..n][j] == entries[j];
        }
        assert CreatedFor(r, relationship, entries, n);
      }
    }
  }

  /** The row carries the pair and the organization of the first entry that names this pair. */
  ghost predicate CreatedFor(r: JoinRecord, relationship: nat, entries: seq<Entry>, i: nat)
    requires i < |entries|
  {
    HasPair(r, relationship, entries[i].record, entries[i].related) &&
    r.organization == Some(entries[i].organization) &&
    forall j :: 0 <= j < i ==> !(entries[j].record == entries[i].record && entries[j].related == entries[i].related)
  }

  lemma {:induction false} EntryIsLoaded(rows: seq<JoinRecord>, relationship: nat, entries: seq<Entry>, i: nat)
    requires i < |entries|
    ensures var after := Loaded(rows, relationship, entries);
      Find(after, relationship, entries[i].record, entries[i].related) < |after|
  {
    var n := |entries| - 1;
    var before := Loaded(rows, relationship, entries[..n]);
    var after := Loaded(rows, relationship, entries);
    if i < n {
      EntryIsLoaded(rows, relationship, entries[..n], i);
      assert entries[..n][i] == entries[i];
      var k := Find(before, relationship, entries[i].record, entries[i].related);
      assert after[k] == before[k];
    } else {
      var k := Find(before, relationship, entries[i].record, entries[i].related);
      if k == |before| {
        assert after[|before|] == NewRow(before, relationship, entries[i]);
      }
    }
  }

  /** The eligible rows are the loaded rows whose pair the entries list. */
  lemma {:induction false} EligibleRows(rows: seq<JoinRecord>, relationship: nat, entries: seq<Entry>, k: nat)
    requires Constraints(rows) && k < |Loaded(rows, relationship, entries)|
    ensures var r := Loaded(rows, relationship, entries)[k];
      r.pk in Eligible(rows, relationship, entries) <==>
      exists i :: 0 <= i < |entries| && HasPair(r, relationship, entries[i].record, entries[i].related)
  {
    var after := Loaded(rows, relationship, entries);
    var r := after[k];
    LoadKeepsConstraints(rows, relationship, entries);
    if r.pk in Eligible(rows, relationship, entries) {
      EligibleSource(rows, relationship, entries, r.pk);
      var i, j :| 0 <= i < |entries| && ListedAt(after, relationship, entries[i], r.pk, j);
      assert j == k;
    }
    if i :| 0 <= i < |entries| && HasPair(r, relationship, entries[i].record, entries[i].related) {
      EntryIsEligible(rows, relationship, entries, i);
      var j := Find(after, relationship, entries[i].record, entries[i].related);
      SamePairSameRow(after, relationship, entries[i].record, entries[i].related, j, k);
    }
  }

  /** Some listed entry has its pair in the row with this primary key. */
  ghost predicate ListedRow(after: seq<JoinRecord>, relationship: nat, entries: seq<Entry>, pk: nat) {
    exists i, j :: 0 <= i < |entries| && ListedAt(after, relationship, entries[i], pk, j)
  }

  ghost predicate ListedAt(after: seq<JoinRecord>, relationship: nat, e: Entry, pk: nat, j: int) {
    0 <= j < |after| && after[j].pk == pk && HasPair(after[j], relationship, e.record, e.related)
  }

  lemma {:induction false} EligibleSource(rows: seq<JoinRecord>, relationship: nat, entries: seq<Entry>, pk: nat)
    requires Constraints(rows) && pk in Eligible(rows, relationship, entries)
    ensures ListedRow(Loaded(rows, relationship, entries), relationship, entries, pk)
  {
    var n := |entries| - 1;
    var after := Loaded(rows, relationship, entries);
    var before := Loaded(rows, relationship, entries[..n]);
    if pk in Eligible(rows, relationship, entries[..n]) {
      EligibleSource(rows, relationship, entries[..n], pk);
      var i, j :| 0 <= i < n && ListedAt(before, relationship, entries[..n][i], pk, j);
      assert entries[..n][i] == entries[i];
      assert ListedAt(after, relationship, entries[i], pk, j);
    } else {
      var j := Find(after, relationship, entries[n].record, entries[n].related);
      assert ListedAt(after, relationship, entries[n], pk, j);
    }
  }

  lemma {:induction false} EntryIsEligible(rows: seq<JoinRecord>, relationship: nat, entries: seq<Entry>, i: nat)
    requires Constraints(rows) && i < |entries|
    ensures var after := Loaded(rows, relationship, entries);
      var k := Find(after, relationship, entries[i].record, entries[i].related);
      k < |after| && after[k].pk in Eligible(rows, relationship, entries)
  {
    var n := |entries| - 1;
    var after := Loaded(rows, relationship, entries);
    EntryIsLoaded(rows, relationship, entries, i);
    if i < n {
      EntryIsEligible(rows, relationship, entries[..n], i);
      EntryIsLoaded(rows, relationship, entries[..n], i);
      assert entries[..n][i] == entries[i];
      var before := Loaded(rows, relationship, entries[..n]);
      var k := Find(before, relationship, entries[i].record, entries[i].related);
      assert after[k] == before[k];
      LoadKeepsConstraints(rows, relationship, entries);
      SamePairSameRow(after, relationship, entries[i].record, entries[i].related, k,
                      Find(after, relationship, entries[i].record, entries[i].related));
    }
  }

  // ---------- results ----------

  /** Exactly these rows remain: rows of other relationships, and the loaded rows whose pair the
      file lists. */
  lemma ReconciledRows(rows: seq<JoinRecord>, relationship: nat, entries: seq<Entry>, r: JoinRecord)
    requires Constraints(rows)
    ensures r in Reconciled(rows, relationship, entries) <==>
      r in Loaded(rows, relationship, entries) &&
      (r.relationship != relationship ||
       exists i :: 0 <= i < |entries| && HasPair(r, relationship, entries[i].record, entries[i].related))
  {
    var after := Loaded(rows, relationship, entries);
    PrunedRows(after, relationship, Eligible(rows, relationship, entries), r);
    if r in after {
      var k :| 0 <= k < |after| && after[k] == r;
      EligibleRows(rows, relationship, entries, k);
    }
  }

  /** After a run the relationship holds exactly the wanted pairs; old rows of it survive, with
      identity and organization, exactly when their pair is wanted; a created row carries the
      organization of the first contact that asks for its pair; the constraints still hold. */
  lemma ReconciliationCorrect(rows: seq<JoinRecord>, relationship: nat, contacts: seq<Contact>, organizations: set<nat>)
    requires Constraints(rows)
    ensures var entries := Entries(contacts, organizations);
      var final := Reconciled(rows, relationship, entries);
      Constraints(final) &&
      (forall u, v ::
        (exists r :: r in final && HasPair(r, relationship, u, v)) <==> Wanted(contacts, organizations, u, v)) &&
      (forall r :: r in final && r.relationship == relationship ==> r.recordUuid.Some? && r.relatedRecordUuid.Some?) &&
      (forall r :: r in rows && r.relationship == relationship ==>
        (r in final <==> exists u, v :: HasPair(r, relationship, u, v) && Wanted(contacts, organizations, u, v))) &&
      (forall r :: r in final && r !in rows ==>
        exists i :: 0 <= i < |entries| && CreatedFor(r, relationship, entries, i))
  {
    var entries := Entries(contacts, organizations);
    var after, final := Loaded(rows, relationship, entries), Reconciled(rows, relationship, entries);
    LoadKeepsConstraints(rows, relationship, entries);
    PruneKeepsConstraints(after, relationship, Eligible(rows, relationship, entries));
    forall r | r in final
      ensures r in after
      ensures r.relationship == relationship ==> r.recordUuid.Some? && r.relatedRecordUuid.Some?
    {
      ReconciledRows(rows, relationship, entries, r);
    }
    forall u, v
      ensures (exists r :: r in final && HasPair(r, relationship, u, v)) <==> Wanted(contacts, organizations, u, v)
    {
      PairPresent(rows, relationship, contacts, organizations, u, v);
    }
    forall r | r in rows && r.relationship == relationship
      ensures r in final <==> exists u, v :: HasPair(r, relationship, u, v) && Wanted(contacts, organizations, u, v)
    {
      OldRowSurvives(rows, relationship, contacts, organizations, r);
    }
    forall r | r in final && r !in rows
      ensures exists i :: 0 <= i < |entries| && CreatedFor(r, relationship, entries, i)
    {
      LoadedRow(rows, relationship, entries, r);
    }
  }

  lemma PairPresent(rows: seq<JoinRecord>, relationship: nat, contacts: seq<Contact>, organizations: set<nat>,
                    u: Uuid, v: Uuid)
    requires Constraints(rows)
    ensures var final := Reconciled(rows, relationship, Entries(contacts, organizations));
      (exists r :: r in final && HasPair(r, relationship, u, v)) <==> Wanted(contacts, organizations, u, v)
  {
    var entries := Entries(contacts, organizations);
    var final := Reconciled(rows, relationship, entries);
    var after := Loaded(rows, relationship, entries);
    EntriesListWanted(contacts, organizations, u, v);
    if Lists(entries, u, v) {
      var i :| 0 <= i < |entries| && entries[i].record == u && entries[i].related == v;
      EntryIsLoaded(rows, relationship, entries, i);
      var r := after[Find(after, relationship, u, v)];
      ReconciledRows(rows, relationship, entries, r);
      assert r in final && HasPair(r, relationship, u, v);
    }
    if r :| r in final && HasPair(r, relationship, u, v) {
      ReconciledRows(rows, relationship, entries, r);
    }
  }

  lemma OldRowSurvives(rows: seq<JoinRecord>, relationship: nat, contacts: seq<Contact>, organizations: set<nat>,
                       r: JoinRecord)
    requires Constraints(rows) && r in rows && r.relationship == relationship
    ensures r in Reconciled(rows, relationship, Entries(contacts, organizations)) <==>
      exists u, v :: HasPair(r, relationship, u, v) && Wanted(contacts, organizations, u, v)
  {
    var entries := Entries(contacts, organizations);
    LoadKeepsConstraints(rows, relationship, entries);
    var n :| 0 <= n < |rows| && rows[n] == r;
    assert Loaded(rows, relationship, entries)[n] == r;
    ReconciledRows(rows, relationship, entries, r);
    if r in Reconciled(rows, relationship, entries) {
      var i :| 0 <= i < |entries| && HasPair(r, relationship, entries[i].record, entries[i].related);
      EntriesListWanted(contacts, organizations, entries[i].record, entries[i].related);
    }
    if u, v :| HasPair(r, relationship, u, v) && Wanted(contacts, organizations, u, v) {
      EntriesListWanted(contacts, organizations, u, v);
      var i :| 0 <= i < |entries| && entries[i].record == u && entries[i].related == v;
      assert HasPair(r, relationship, entries[i].record, entries[i].related);
    }
  }

  /** The rows of other relationships, in order. */
  function Others(rows: seq<JoinRecord>, relationship: nat): seq<JoinRecord> {
    if rows == [] then []
    else
      Others(rows[..|rows| - 1], relationship) +
      if rows[|rows| - 1].relationship != relationship then [rows[|rows| - 1]] else []
  }

  lemma {:induction false} OthersConcat(a: seq<JoinRecord>, b: seq<JoinRecord>, relationship: nat)
    ensures Others(a + b, relationship) == Others(a, relationship) + Others(b, relationship)
  {
    if b == [] {
      assert a + b == a;
    } else {
      assert (a + b)[..|a + b| - 1] == a + b[..|b| - 1];
      OthersConcat(a, b[..|b| - 1], relationship);
    }
  }

  lemma OthersCons(r: JoinRecord, rows: seq<JoinRecord>, relationship: nat)
    ensures Others([r] + rows, relationship)
         == if r.relationship != relationship then [r] + Others(rows, relationship) else Others(rows, relationship)
  {
    OthersConcat([r], rows, relationship);
    OthersOne(r, relationship);
    var rest := Others(rows, relationship);
    assert [] + rest == rest;
  }

  lemma OthersOne(r: JoinRecord, relationship: nat)
    ensures Others([r], relationship) == if r.relationship != relationship then [r] else []
  {
    assert [r][..0] == [];
  }

  /** Rows of other relationships stay as they are, and in order. */
  lemma {:induction false} OtherRelationshipsUntouched(rows: seq<JoinRecord>, relationship: nat, entries: seq<Entry>)
    ensures Others(Reconciled(rows, relationship, entries), relationship) == Others(rows, relationship)
  {
    OthersPruned(Loaded(rows, relationship, entries), relationship, Eligible(rows, relationship, entries));
    OthersLoaded(rows, relationship, entries);
  }

  lemma {:induction false} OthersPruned(rows: seq<JoinRecord>, relationship: nat, eligible: seq<nat>)
    ensures Others(Pruned(rows, relationship, eligible), relationship) == Others(rows, relationship)
  {
    if rows != [] {
      var r, tail := rows[0], rows[1..];
      assert rows == [r] + tail;
      OthersPruned(tail, relationship, eligible);
      PrunedCons(r, tail, relationship, eligible);
      OthersCons(r, tail, relationship);
      OthersCons(r, Pruned(tail, relationship, eligible), relationship);
    }
  }

  lemma PrunedCons(r: JoinRecord, rows: seq<JoinRecord>, relationship: nat, eligible: seq<nat>)
    ensures Pruned([r] + rows, relationship, eligible) ==
      if r.relationship == relationship && r.pk !in eligible then Pruned(rows, relationship, eligible)
      else [r] + Pruned(rows, relationship, eligible)
  {
    var rest := Pruned(rows, relationship, eligible);
    assert ([r] + rows)[1..] == rows && [] + rest == rest;
  }

  lemma {:induction false} OthersLoaded(rows: seq<JoinRecord>, relationship: nat, entries: seq<Entry>)
    ensures Others(Loaded(rows, relationship, entries), relationship) == Others(rows, relationship)
  {
    if entries != [] {
      var before := Loaded(rows, relationship, entries[..|entries| - 1]);
      OthersLoaded(rows, relationship, entries[..|entries| - 1]);
      var r := NewRow(before, relationship, entries[|entries| - 1]);
      assert (before + [r])[..|before|] == before;
    }
  }

  lemma {:induction false} PrunedPlaces(rows: seq<JoinRecord>, relationship: nat, eligible: seq<nat>)
      returns (places: seq<nat>)
    ensures Picks(rows, places, Pruned(rows, relationship, eligible))
  {
    places := [];
    if rows != [] {
      var rest := PrunedPlaces(rows[1..], relationship, eligible);
      places := KeptOf(rows, rest, Pruned(rows[1..], relationship, eligible),
                       !(rows[0].relationship == relationship && rows[0].pk !in eligible));
    }
  }

  /** The rows that remain keep their order, and new rows stand behind them. */
  lemma ReconciledInOrder(rows: seq<JoinRecord>, relationship: nat, entries: seq<Entry>)
      returns (created: seq<JoinRecord>, places: seq<nat>)
    requires Constraints(rows)
    ensures Picks(rows + created, places, Reconciled(rows, relationship, entries))
  {
    var loaded := Loaded(rows, relationship, entries);
    LoadKeepsConstraints(rows, relationship, entries);
    created := loaded[|rows|..];
    assert rows + created == loaded;
    places := PrunedPlaces(loaded, relationship, Eligible(rows, relationship, entries));
  }

  lemma {:induction false} LoadOfPresent(rows: seq<JoinRecord>, relationship: nat, entries: seq<Entry>)
    requires forall i :: 0 <= i < |entries| ==>
      Find(rows, relationship, entries[i].record, entries[i].related) < |rows|
    ensures Loaded(rows, relationship, entries) == rows
  {
    if entries != [] {
      assert forall i :: 0 <= i < |entries| - 1 ==> entries[..|entries| - 1][i] == entries[i];
      LoadOfPresent(rows, relationship, entries[..|entries| - 1]);
    }
  }

  lemma {:induction false} PruneOfEligible(rows: seq<JoinRecord>, relationship: nat, eligible: seq<nat>)
    requires forall i :: 0 <= i < |rows| ==> rows[i].relationship != relationship || rows[i].pk in eligible
    ensures Pruned(rows, relationship, eligible) == rows
  {
    if rows != [] {
      assert forall i :: 0 <= i < |rows[1..]| ==> rows[1..][i] == rows[i + 1];
      PruneOfEligible(rows[1..], relationship, eligible);
    }
  }

  /** A second run with the same file changes nothing. */
  lemma SecondRunChangesNothing(rows: seq<JoinRecord>, relationship: nat, contacts: seq<Contact>,
                                organizations: set<nat>)
    requires Constraints(rows)
    ensures var entries := Entries(contacts, organizations);
      Reconciled(Reconciled(rows, relationship, entries), relationship, entries)
        == Reconciled(rows, relationship, entries)
  {
    var entries := Entries(contacts, organizations);
    var final := Reconciled(rows, relationship, entries);
    LoadKeepsConstraints(rows, relationship, entries);
    PruneKeepsConstraints(Loaded(rows, relationship, entries), relationship, Eligible(rows, relationship, entries));
    forall i | 0 <= i < |entries|
      ensures Find(final, relationship, entries[i].record, entries[i].related) < |final|
    {
      EntriesListWanted(contacts, organizations, entries[i].record, entries[i].related);
      PairPresent(rows, relationship, contacts, organizations, entries[i].record, entries[i].related);
      var r :| r in final && HasPair(r, relationship, entries[i].record, entries[i].related);
      var k :| 0 <= k < |final| && final[k] == r;
    }
    LoadOfPresent(final, relationship, entries);
    var eligible := Eligible(final, relationship, entries);
    forall k | 0 <= k < |final| ensures final[k].relationship != relationship || final[k].pk in eligible {
      EligibleRows(final, relationship, entries, k);
      ReconciledRows(rows, relationship, entries, final[k]);
    }
    PruneOfEligible(final, relationship, eligible);
  }
}
