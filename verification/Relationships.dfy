/** The `Relationship` table and its rule against reverse relationships. */
module Relationships {
  import opened Models

  predicate IsReverse(r: Relationship, s: Relationship) {
    s.origin.pk == r.related.pk && s.related.pk == r.origin.pk
  }

  /** `filter(origin_model=related, related_model=origin).count()`. */
  function ReverseCount(rows: seq<Relationship>, r: Relationship): (n: nat)
    ensures n == 0 <==> forall i :: 0 <= i < |rows| ==> !IsReverse(r, rows[i])
  {
    if rows == [] then 0
    else
      var n := (if IsReverse(r, rows[|rows| - 1]) then 1 else 0) + ReverseCount(rows[..|rows| - 1], r);
      assert forall i :: 0 <= i < |rows| - 1 ==> rows[..|rows| - 1][i] == rows[i];
      n
  }

  /** The row stored under its primary key: in place when it is there, else at the end. */
  function Stored(rows: seq<Relationship>, r: Relationship): seq<Relationship> {
    if rows == [] then [r]
    else if rows[0].pk == r.pk then [r] + rows[1..]
    else [rows[0]] + Stored(rows[1..], r)
  }

  function Without(rows: seq<Relationship>, pk: nat): seq<Relationship> {
    if rows == [] then [] else (if rows[0].pk == pk then [] else [rows[0]]) + Without(rows[1..], pk)
  }

  /** Deleting a model takes its relationships along. */
  function WithoutModel(rows: seq<Relationship>, model: nat): seq<Relationship> {
    if rows == [] then []
    else
      (if rows[0].origin.pk == model || rows[0].related.pk == model then [] else [rows[0]]) +
      WithoutModel(rows[1..], model)
  }

  /** Primary keys differ, and no two rows are reverses of each other. */
  ghost predicate NoReverse(rows: seq<Relationship>) {
    forall i, j :: 0 <= i < j < |rows| ==> rows[i].pk != rows[j].pk && !IsReverse(rows[i], rows[j])
  }

  /** `relationship.save()`: the new table, and whether the row was accepted. */
  function SaveRow(rows: seq<Relationship>, r: Relationship): (seq<Relationship>, bool) {
    if ReverseCount(rows, r) != 0 then (rows, false) else (Stored(rows, r), true)
  }

  datatype Change = Save(row: Relationship) | Delete(pk: nat) | DeleteModel(model: nat)

  function Applied(rows: seq<Relationship>, c: Change): seq<Relationship> {
    match c
    case Save(r) => SaveRow(rows, r).0
    case Delete(pk) => Without(rows, pk)
    case DeleteModel(m) => WithoutModel(rows, m)
  }

  function Run(changes: seq<Change>): seq<Relationship> {
    if changes == [] then [] else Applied(Run(changes[..|changes| - 1]), changes[|changes| - 1])
  }

  class RelationshipTable {
    var rows: seq<Relationship>

    constructor ()
      ensures rows == [] && NoReverse(rows)
    {
      rows := [];
    }

    /** `Relationship.save`: refused exactly when some row, be it the old version of this one, is
        the reverse of what is to be saved. */
    method Save(r: Relationship) returns (saved: bool)
      requires NoReverse(rows)
      modifies this
      ensures NoReverse(rows)
      ensures saved <==> forall i :: 0 <= i < |old(rows)| ==> !IsReverse(r, old(rows)[i])
      ensures rows == SaveRow(old(rows), r).0
      ensures !saved ==> rows == old(rows)
      ensures saved ==> r in rows && PutInPlace(old(rows), r, rows)
      ensures forall changes :: old(rows) == Run(changes) ==> rows == Run(changes + [Change.Save(r)])
    {
      forall changes ensures Run(changes + [Change.Save(r)]) == SaveRow(Run(changes), r).0 {
        RunSnoc(changes, Change.Save(r));
      }
      if ReverseCount(rows, r) != 0 {
        return false;
      }
      StoredNoReverse(rows, r);
      StoredInPlace(rows, r);
      rows := Stored(rows, r);
      return true;
    }

    /** `LogicModuleModel.get_relationships`: each relationship with its direction. */
    method GetRelationships(model: LogicModuleModel) returns (directed: seq<(Relationship, bool)>)
      ensures directed == Directed(rows, model)
    {
      directed := [];
      for i := 0 to |rows|
        invariant directed == Directed(rows[..i], model)
      {
        assert rows[..i + 1][..i] == rows[..i];
        var relationship := rows[i];
        if relationship.origin.pk == model.pk || relationship.related.pk == model.pk {
          directed := directed + [(relationship, relationship.origin.pk == model.pk)];
        }
      }
      assert rows[..|rows|] == rows;
    }
  }

  function Directed(rows: seq<Relationship>, model: LogicModuleModel): seq<(Relationship, bool)> {
    if rows == [] then []
    else
      var r := rows[|rows| - 1];
      Directed(rows[..|rows| - 1], model) +
      if r.origin.pk == model.pk || r.related.pk == model.pk then [(r, r.origin.pk == model.pk)] else []
  }

  // ---------- what a change leaves ----------

  /** The row with this primary key is replaced in its place, every other row keeps its own, and a
      row with a new primary key goes to the end. */
  ghost predicate PutInPlace(rows: seq<Relationship>, r: Relationship, after: seq<Relationship>) {
    |rows| <= |after| <= |rows| + 1 &&
    (forall i :: 0 <= i < |rows| ==> after[i] == if rows[i].pk == r.pk then r else rows[i]) &&
    (|after| > |rows| <==> forall i :: 0 <= i < |rows| ==> rows[i].pk != r.pk) &&
    (|after| > |rows| ==> after[|rows|] == r)
  }

  lemma {:induction false} StoredInPlace(rows: seq<Relationship>, r: Relationship)
    requires forall i, j :: 0 <= i < j < |rows| ==> rows[i].pk != rows[j].pk
    ensures PutInPlace(rows, r, Stored(rows, r))
  {
    if rows != [] && rows[0].pk != r.pk {
      StoredInPlace(rows[1..], r);
      assert forall i :: 1 <= i < |rows| ==> rows[i] == rows[1..][i - 1];
    }
  }

  /** A deletion takes exactly the named rows, and the others stay in order: the row with the primary
      key, or the rows of the model. */
  lemma {:induction false} DeletedExactly(rows: seq<Relationship>, c: Change) returns (kept: seq<nat>)
    requires !c.Save?
    ensures Picks(rows, kept, Applied(rows, c))
    ensures forall i :: 0 <= i < |rows| ==>
      (i in kept <==> if c.Delete? then rows[i].pk != c.pk
                      else rows[i].origin.pk != c.model && rows[i].related.pk != c.model)
  {
    kept := [];
    if rows != [] {
      var rest := DeletedExactly(rows[1..], c);
      var keepsFirst := if c.Delete? then rows[0].pk != c.pk
                        else rows[0].origin.pk != c.model && rows[0].related.pk != c.model;
      kept := KeptOf(rows, rest, Applied(rows[1..], c), keepsFirst);
    }
  }

  // ---------- runs ----------

  /** The rows after a save: the saved one, and rows that were there under other keys. */
  lemma {:induction false} StoredRows(rows: seq<Relationship>, r: Relationship)
    ensures r in Stored(rows, r)
    ensures forall i :: 0 <= i < |Stored(rows, r)| ==> Stored(rows, r)[i] == r || Stored(rows, r)[i] in rows
  {
    if rows != [] && rows[0].pk != r.pk {
      StoredRows(rows[1..], r);
    }
  }

  lemma {:induction false} StoredNoReverse(rows: seq<Relationship>, r: Relationship)
    requires NoReverse(rows) && forall i :: 0 <= i < |rows| ==> !IsReverse(r, rows[i])
    ensures NoReverse(Stored(rows, r)) && r in Stored(rows, r)
  {
    if rows != [] {
      if rows[0].pk == r.pk {
        assert NoReverse([r] + rows[1..]);
      } else {
        StoredNoReverse(rows[1..], r);
        StoredRows(rows[1..], r);
        var s := Stored(rows[1..], r);
        forall j | 0 <= j < |s| ensures s[j].pk != rows[0].pk && !IsReverse(rows[0], s[j]) {
          if s[j] != r {
            assert s[j] in rows[1..];
          }
        }
      }
    }
  }

  lemma {:induction false} FilterNoReverse(rows: seq<Relationship>, c: Change)
    requires NoReverse(rows) && !c.Save?
    ensures NoReverse(Applied(rows, c))
    ensures forall r :: r in Applied(rows, c) ==> r in rows
  {
    if rows != [] {
      FilterNoReverse(rows[1..], c);
      var rest := Applied(rows[1..], c);
      forall j | 0 <= j < |rest| ensures rest[j].pk != rows[0].pk && !IsReverse(rows[0], rest[j]) {
        assert rest[j] in rows[1..];
      }
    }
  }

  lemma RunSnoc(changes: seq<Change>, c: Change)
    ensures Run(changes + [c]) == Applied(Run(changes), c)
  {
    assert (changes + [c])[..|changes|] == changes;
  }

  /** After any sequence of saves and deletions there are no two reverse relationships; so at most
      one relationship joins a model to itself. */
  lemma {:induction false} RunNoReverse(changes: seq<Change>)
    ensures NoReverse(Run(changes))
  {
    if changes != [] {
      var rows, c := Run(changes[..|changes| - 1]), changes[|changes| - 1];
      RunNoReverse(changes[..|changes| - 1]);
      match c
      case Save(r) =>
        if ReverseCount(rows, r) == 0 {
          StoredNoReverse(rows, r);
        }
      case _ => FilterNoReverse(rows, c);
    }
  }

  lemma {:induction false} DirectedFlag(rows: seq<Relationship>, model: LogicModuleModel, r: Relationship, flag: bool)
    ensures (r, flag) in Directed(rows, model) <==>
      r in rows && (r.origin.pk == model.pk || r.related.pk == model.pk) && flag == (r.origin.pk == model.pk)
  {
    if rows != [] {
      DirectedFlag(rows[..|rows| - 1], model, r, flag);
      assert rows == rows[..|rows| - 1] + [rows[|rows| - 1]];
    }
  }

  /** The list has exactly the model's relationships, each once and in order, with the direction. */
  lemma {:induction false} DirectedExactly(rows: seq<Relationship>, model: LogicModuleModel) returns (places: seq<nat>)
    ensures Increasing(places) && |places| == |Directed(rows, model)|
    ensures forall k :: 0 <= k < |places| ==>
      places[k] < |rows| && Directed(rows, model)[k] == (rows[places[k]], rows[places[k]].origin.pk == model.pk)
    ensures forall i :: 0 <= i < |rows| ==>
      (i in places <==> rows[i].origin.pk == model.pk || rows[i].related.pk == model.pk)
  {
    places := [];
    if rows != [] {
      var n := |rows| - 1;
      places := DirectedExactly(rows[..n], model);
      if rows[n].origin.pk == model.pk || rows[n].related.pk == model.pk {
        places := places + [n];
      }
    }
  }

  ghost predicate Between(r: Relationship, a: nat, b: nat) {
    (r.origin.pk == a && r.related.pk == b) || (r.origin.pk == b && r.related.pk == a)
  }

  /** All relationships between two different models get one direction flag, in every run, and the
      two models see opposite flags; a model has at most one relationship with itself. */
  lemma UniformDirection(changes: seq<Change>, a: LogicModuleModel, b: LogicModuleModel,
                         r: Relationship, f: bool, s: Relationship, g: bool)
    requires Between(r, a.pk, b.pk) && Between(s, a.pk, b.pk)
    requires (r, f) in Directed(Run(changes), a)
    ensures (s, g) in Directed(Run(changes), a) && a.pk != b.pk ==> f == g
    ensures (s, g) in Directed(Run(changes), b) && a.pk != b.pk ==> f == !g
    ensures (s, g) in Directed(Run(changes), a) && a.pk == b.pk ==> r == s && f && g
  {
    var rows := Run(changes);
    RunNoReverse(changes);
    DirectedFlag(rows, a, r, f);
    DirectedFlag(rows, a, s, g);
    DirectedFlag(rows, b, s, g);
    if s in rows {
      var i :| 0 <= i < |rows| && rows[i] == r;
      var j :| 0 <= j < |rows| && rows[j] == s;
      assert i < j ==> !IsReverse(rows[i], rows[j]);
      assert j < i ==> !IsReverse(rows[j], rows[i]);
    }
  }

  /** A stored relationship can be saved again, its models as they were, exactly when it leads from
      one model to another: one that leads to its own model is its own reverse. */
  lemma SavedAgainExactly(rows: seq<Relationship>, r: Relationship, i: nat)
    requires NoReverse(rows) && i < |rows| && rows[i].pk == r.pk
    requires rows[i].origin.pk == r.origin.pk && rows[i].related.pk == r.related.pk
    ensures SaveRow(rows, r).1 <==> r.origin.pk != r.related.pk
  {
    assert IsReverse(r, rows[i]) <==> r.origin.pk == r.related.pk;
    forall j | 0 <= j < |rows| && j != i ensures !IsReverse(r, rows[j]) {
      assert i < j ==> !IsReverse(rows[i], rows[j]);
      assert j < i ==> !IsReverse(rows[j], rows[i]);
    }
  }

  /** A relationship of a model with itself can be created exactly while there is none. */
  lemma SelfCreatedExactly(rows: seq<Relationship>, r: Relationship)
    requires r.origin.pk == r.related.pk
    ensures SaveRow(rows, r).1 <==> forall i :: 0 <= i < |rows| ==> !Between(rows[i], r.origin.pk, r.origin.pk)
    ensures SaveRow(rows, r).1 ==> r in SaveRow(rows, r).0 && !SaveRow(SaveRow(rows, r).0, r).1
  {
    forall i | 0 <= i < |rows| ensures IsReverse(r, rows[i]) <==> Between(rows[i], r.origin.pk, r.origin.pk) {
    }
    if SaveRow(rows, r).1 {
      StoredRows(rows, r);
      var after := Stored(rows, r);
      var i :| 0 <= i < |after| && after[i] == r;
      assert IsReverse(r, after[i]);
    }
  }
}
