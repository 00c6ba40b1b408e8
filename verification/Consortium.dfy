/** Consortium membership, kept by custody requests (`GatewayRequest.perform`). */
module Consortium {
  import opened Texts
  import opened Models

  datatype Row = Row(name: Text, organizations: seq<Option<Uuid>>)

  /** A custody POST that was answered with 201: the shipment it names and the organization, if any. */
  datatype Custody = Custody(shipment: Text, organization: Option<Uuid>)

  function Find(rows: seq<Row>, name: Text): (i: nat)
    ensures i <= |rows|
    ensures i < |rows| ==> rows[i].name == name
    ensures forall j :: 0 <= j < i ==> rows[j].name != name
  {
    if rows == [] || rows[0].name == name then 0 else 1 + Find(rows[1..], name)
  }

  function Posted(rows: seq<Row>, c: Custody): seq<Row> {
    var i := Find(rows, c.shipment);
    if i == |rows| then rows + [Row(c.shipment, [c.organization])]
    else if c.organization.None? || c.organization in rows[i].organizations then rows
    else rows[i := rows[i].(organizations := rows[i].organizations + [c.organization])]
  }

  function Run(posts: seq<Custody>): seq<Row> {
    if posts == [] then [] else Posted(Run(posts[..|posts| - 1]), posts[|posts| - 1])
  }

  /** One consortium for each posted shipment; its members are the organizations posted for the
      shipment, none of them twice. */
  ghost predicate Matches(rows: seq<Row>, posts: seq<Custody>) {
    (forall i, j :: 0 <= i < j < |rows| ==> rows[i].name != rows[j].name) &&
    Names(rows) == Shipments(posts) &&
    forall i :: 0 <= i < |rows| ==> MembersMatch(rows[i], posts)
  }

  function Names(rows: seq<Row>): set<Text> {
    set i | 0 <= i < |rows| :: rows[i].name
  }

  function Shipments(posts: seq<Custody>): set<Text> {
    set c | c in posts :: c.shipment
  }

  ghost predicate MembersMatch(r: Row, posts: seq<Custody>) {
    (forall o: Uuid :: Some(o) in r.organizations <==> Custody(r.name, Some(o)) in posts) &&
    forall i, j :: 0 <= i < j < |r.organizations| ==> r.organizations[i] != r.organizations[j]
  }

  lemma PostMembers(rows: seq<Row>, posts: seq<Custody>, c: Custody, k: nat)
    requires Matches(rows, posts) && k < |Posted(rows, c)|
    ensures MembersMatch(Posted(rows, c)[k], posts + [c])
  {
    var i := Find(rows, c.shipment);
    if k == |rows| {
      assert c.shipment !in Names(rows);
      FirstMember(posts, c);
    } else if k == i {
      PostedMembers(rows[i], posts, c);
    } else {
      assert i < |rows| ==> rows[k].name != rows[i].name;
      OtherMembers(rows[k], posts, c);
    }
  }

  lemma FirstMember(posts: seq<Custody>, c: Custody)
    requires c.shipment !in Shipments(posts)
    ensures MembersMatch(Row(c.shipment, [c.organization]), posts + [c])
  {
    assert forall d :: d in posts + [c] <==> d in posts || d == c;
    assert forall d :: d in posts ==> d.shipment in Shipments(posts);
  }

  lemma OtherMembers(r: Row, posts: seq<Custody>, c: Custody)
    requires MembersMatch(r, posts) && r.name != c.shipment
    ensures MembersMatch(r, posts + [c])
  {
    assert forall d :: d in posts + [c] <==> d in posts || d == c;
  }

  lemma PostedMembers(r: Row, posts: seq<Custody>, c: Custody)
    requires MembersMatch(r, posts) && r.name == c.shipment
    ensures c.organization.None? || c.organization in r.organizations ==> MembersMatch(r, posts + [c])
    ensures c.organization.Some? && c.organization !in r.organizations ==>
      MembersMatch(r.(organizations := r.organizations + [c.organization]), posts + [c])
  {
    assert forall d :: d in posts + [c] <==> d in posts || d == c;
  }

  lemma PostNames(rows: seq<Row>, posts: seq<Custody>, c: Custody)
    requires Matches(rows, posts)
    ensures var after := Posted(rows, c);
      (forall i, j :: 0 <= i < j < |after| ==> after[i].name != after[j].name) &&
      Names(after) == Shipments(posts + [c])
  {
    var i := Find(rows, c.shipment);
    var after := Posted(rows, c);
    assert forall k :: 0 <= k < |rows| ==> after[k].name == rows[k].name;
    assert after[i].name == c.shipment;
    assert Shipments(posts + [c]) == Shipments(posts) + {c.shipment};
    NamesPosted(rows, after, c.shipment, i);
  }

  lemma NamesPosted(rows: seq<Row>, after: seq<Row>, name: Text, i: nat)
    requires |rows| <= |after| <= |rows| + 1 && i < |after| && after[i].name == name
    requires forall k :: 0 <= k < |rows| ==> after[k].name == rows[k].name
    requires |after| > |rows| ==> i == |rows|
    ensures Names(after) == Names(rows) + {name}
  {
    forall n | n in Names(after) ensures n in Names(rows) + {name} {
      var k :| 0 <= k < |after| && after[k].name == n;
      assert k < |rows| ==> rows[k].name == n;
    }
    forall n | n in Names(rows) ensures n in Names(after) {
      var k :| 0 <= k < |rows| && rows[k].name == n;
      assert after[k].name == n;
    }
  }

  lemma PostMatches(rows: seq<Row>, posts: seq<Custody>, c: Custody)
    requires Matches(rows, posts)
    ensures Matches(Posted(rows, c), posts + [c])
  {
    PostNames(rows, posts, c);
    forall k | 0 <= k < |Posted(rows, c)| ensures MembersMatch(Posted(rows, c)[k], posts + [c]) {
      PostMembers(rows, posts, c, k);
    }
  }

  /** After any sequence of custody posts, starting from an empty table. */
  lemma {:induction false} RunMatches(posts: seq<Custody>)
    ensures Matches(Run(posts), posts)
  {
    if posts != [] {
      var n := |posts| - 1;
      RunMatches(posts[..n]);
      PostMatches(Run(posts[..n]), posts[..n], posts[n]);
      assert posts[..n] + [posts[n]] == posts;
    }
  }

  /** Rows stay in place and lists only grow at their ends. */
  ghost predicate GrownFrom(rows: seq<Row>, after: seq<Row>) {
    |rows| <= |after| &&
    forall i :: 0 <= i < |rows| ==> after[i].name == rows[i].name && rows[i].organizations <= after[i].organizations
  }

  /** Membership never shrinks over a run. */
  lemma {:induction false} MembershipNeverShrinks(posts: seq<Custody>, n: nat)
    requires n <= |posts|
    ensures GrownFrom(Run(posts[..n]), Run(posts))
  {
    if n == |posts| {
      assert posts[..n] == posts;
    } else {
      var m := |posts| - 1;
      MembershipNeverShrinks(posts[..m], n);
      assert posts[..m][..n] == posts[..n];
    }
  }

  // ---------- the table ----------

  /** The row of the shipment lists the organization of the post, if it names one. */
  ghost predicate HasMember(rows: seq<Row>, i: int, c: Custody) {
    0 <= i < |rows| && rows[i].name == c.shipment &&
    (c.organization.Some? ==> c.organization in rows[i].organizations)
  }

  class ConsortiumTable {
    var rows: seq<Row>

    constructor ()
      ensures rows == []
    {
      rows := [];
    }

    /** The custody branch of `GatewayRequest.perform`: a table that matches the posts so far
        matches them with this one added. The consortium of the shipment gets the organization, if
        there is one, and no other consortium changes. */
    method Post(c: Custody)
      modifies this
      ensures rows == Posted(old(rows), c)
      ensures forall posts :: Matches(old(rows), posts) ==> Matches(rows, posts + [c])
      ensures forall posts :: old(rows) == Run(posts) ==> rows == Run(posts + [c])
      ensures GrownFrom(old(rows), rows) && |rows| <= |old(rows)| + 1
      ensures exists i :: HasMember(rows, i, c)
      ensures forall i :: 0 <= i < |old(rows)| && rows[i] != old(rows)[i] ==>
        rows[i].name == c.shipment && c.organization.Some? && c.organization !in old(rows)[i].organizations &&
        rows[i].organizations == old(rows)[i].organizations + [c.organization]
      ensures if exists i :: 0 <= i < |old(rows)| && old(rows)[i].name == c.shipment then |rows| == |old(rows)|
              else rows == old(rows) + [Row(c.shipment, [c.organization])]
    {
      forall posts | Matches(rows, posts) ensures Matches(Posted(rows, c), posts + [c]) {
        PostMatches(rows, posts, c);
      }
      forall posts ensures Run(posts + [c]) == Posted(Run(posts), c) {
        assert (posts + [c])[..|posts|] == posts;
      }
      var i := Find(rows, c.shipment);
      if i < |rows| {
        var organizationList := rows[i].organizations;
        if c.organization.Some? {
          if c.organization !in organizationList {
            organizationList := organizationList + [c.organization];
            rows := rows[i := rows[i].(organizations := organizationList)];
          }
        }
      } else {
        rows := rows + [Row(c.shipment, [c.organization])];
      }
      assert HasMember(rows, i, c);
    }
  }
}
