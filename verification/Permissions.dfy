/** CRUD permissions as strings of four digits, and their codec. */
module Permissions {
  import opened Texts

  /** A user group with the fields permissions depend on. `levels` are the primary keys of the
      attached `WorkflowLevel1` objects. */
  datatype Group = Group(
    organization: Option<nat>,
    isGlobal: bool,
    isOrgLevel: bool,
    permissions: nat,
    levels: seq<nat>)

  datatype User = User(
    isAnonymous: bool,
    isActive: bool,
    isSuperuser: bool,
    organization: Option<nat>,
    groups: seq<Group>)

  const ADMIN := 15
  const VIEW_ONLY := 4
  const NO_ACCESS := 0

  // ---------- strings of four digits ----------

  predicate IsBits(p: string) {
    |p| == 4 && forall i :: 0 <= i < 4 ==> p[i] == '0' || p[i] == '1'
  }

  function Digit(n: nat): (c: char)
    requires n < 2
    ensures c == '0' || c == '1'
  {
    if n == 0 then '0' else '1'
  }

  /** `'{0:04b}'.format(n if n < 16 else 15)`. */
  function Display(n: nat): (p: string)
    ensures IsBits(p)
  {
    var m := if n < 16 then n else 15;
    [Digit(m / 8), Digit(m / 4 % 2), Digit(m / 2 % 2), Digit(m % 2)]
  }

  /** `merge_permissions`: the greater digit at each place. */
  function Merge(p: string, q: string): (r: string)
    requires IsBits(p) && IsBits(q)
    ensures IsBits(r)
    ensures forall i :: 0 <= i < 4 ==> (r[i] == '1' <==> p[i] == '1' || q[i] == '1')
  {
    seq(4, i requires 0 <= i < 4 => if p[i] < q[i] then q[i] else p[i])
  }

  /** The digit an HTTP method or a view action stands for, `None` for an unknown name. */
  function DigitOf(name: string): (i: Option<nat>)
    ensures i.Some? ==> i.value < 4
  {
    if name == "POST" || name == "create" then Some(0)
    else if name == "GET" || name == "HEAD" || name == "OPTIONS" || name == "list" || name == "retrieve" then Some(1)
    else if name == "PUT" || name == "PATCH" || name == "update" || name == "partial_update" then Some(2)
    else if name == "DELETE" || name == "destroy" then Some(3)
    else None
  }

  /** `core.permissions.has_permission`. */
  predicate HasPermission(p: string, name: string)
    requires IsBits(p)
  {
    DigitOf(name).Some? && p[DigitOf(name).value] == '1'
  }

  predicate Grants(g: Group, name: string) {
    HasPermission(Display(g.permissions), name)
  }

  // ---------- folding ----------

  /** Merging the permissions of some groups, one after the other, onto a default. */
  function MergeGroups(start: string, groups: seq<Group>): (r: string)
    requires IsBits(start)
    ensures IsBits(r)
  {
    if groups == [] then start
    else Merge(MergeGroups(start, groups[..|groups| - 1]), Display(groups[|groups| - 1].permissions))
  }

  /** The merged string grants a name exactly when the default or some group does. */
  lemma {:induction false} MergeGroupsGrants(start: string, groups: seq<Group>, name: string)
    requires IsBits(start)
    ensures HasPermission(MergeGroups(start, groups), name) <==>
      HasPermission(start, name) || exists g :: g in groups && Grants(g, name)
  {
    if groups != [] {
      var before, last := groups[..|groups| - 1], groups[|groups| - 1];
      MergeGroupsGrants(start, before, name);
      assert groups == before + [last];
      assert HasPermission(MergeGroups(start, groups), name) <==>
        HasPermission(MergeGroups(start, before), name) || Grants(last, name);
      if g :| g in groups && Grants(g, name) {
        assert g in before || g == last;
      }
      if g :| g in before && Grants(g, name) {
        assert g in groups;
      }
      assert last in groups;
    }
  }

  /** Bitwise OR of natural numbers. */
  function BitOr(a: nat, b: nat): nat {
    if a == 0 && b == 0 then 0
    else 2 * BitOr(a / 2, b / 2) + if a % 2 == 1 || b % 2 == 1 then 1 else 0
  }

  function Clamped(n: nat): nat {
    if n < 16 then n else 15
  }

  lemma BitOrHalves(a: nat, b: nat)
    ensures BitOr(a, b) % 2 == (if a % 2 == 1 || b % 2 == 1 then 1 else 0)
    ensures BitOr(a, b) / 2 == BitOr(a / 2, b / 2)
  {
  }

  lemma {:induction false} BitOrBound(a: nat, b: nat, bound: nat)
    requires a < bound && b < bound && (bound == 1 || bound == 2 || bound == 4 || bound == 8 || bound == 16)
    ensures BitOr(a, b) < bound
  {
    if bound > 1 {
      BitOrBound(a / 2, b / 2, bound / 2);
      BitOrHalves(a, b);
    }
  }

  /** Merging display strings is the bitwise OR of the clamped numbers. */
  lemma MergeIsBitOr(a: nat, b: nat)
    ensures Merge(Display(a), Display(b)) == Display(BitOr(Clamped(a), Clamped(b)))
    ensures BitOr(Clamped(a), Clamped(b)) < 16
  {
    var o := BitOr(Clamped(a), Clamped(b));
    BitOrBound(Clamped(a), Clamped(b), 16);
    BitOrDigits(Clamped(a), Clamped(b));
    DisplayDigits(a);
    DisplayDigits(b);
    DisplayDigits(o);
    SameBits(Merge(Display(a), Display(b)), Display(o));
  }

  lemma SameBits(p: string, q: string)
    requires IsBits(p) && IsBits(q)
    requires (p[0] == '1' <==> q[0] == '1') && (p[1] == '1' <==> q[1] == '1')
    requires (p[2] == '1' <==> q[2] == '1') && (p[3] == '1' <==> q[3] == '1')
    ensures p == q
  {
  }

  lemma DisplayDigits(n: nat)
    ensures (Display(n)[0] == '1' <==> Clamped(n) / 8 % 2 == 1) && (Display(n)[1] == '1' <==> Clamped(n) / 4 % 2 == 1)
    ensures (Display(n)[2] == '1' <==> Clamped(n) / 2 % 2 == 1) && (Display(n)[3] == '1' <==> Clamped(n) % 2 == 1)
  {
  }

  lemma BitOrDigits(x: nat, y: nat)
    ensures var o := BitOr(x, y);
      (o % 2 == 1 <==> x % 2 == 1 || y % 2 == 1) && (o / 2 % 2 == 1 <==> x / 2 % 2 == 1 || y / 2 % 2 == 1) &&
      (o / 4 % 2 == 1 <==> x / 4 % 2 == 1 || y / 4 % 2 == 1) && (o / 8 % 2 == 1 <==> x / 8 % 2 == 1 || y / 8 % 2 == 1)
  {
    BitOrHalves(x, y);
    BitOrHalves(x / 2, y / 2);
    BitOrHalves(x / 4, y / 4);
    BitOrHalves(x / 8, y / 8);
    Halves(x);
    Halves(y);
    Halves(BitOr(x, y));
  }

  lemma Halves(n: nat)
    ensures n / 2 / 2 == n / 4 && n / 4 / 2 == n / 8
  {
  }

  function OrAll(groups: seq<Group>): nat {
    if groups == [] then 0
    else BitOr(OrAll(groups[..|groups| - 1]), Clamped(groups[|groups| - 1].permissions))
  }

  /** Folding `merge_permissions` from `0000` gives the display string of the bitwise OR. */
  lemma {:induction false} FoldIsBitOr(groups: seq<Group>)
    ensures MergeGroups(Display(NO_ACCESS), groups) == Display(OrAll(groups)) && OrAll(groups) < 16
  {
    if groups != [] {
      var n := |groups| - 1;
      FoldIsBitOr(groups[..n]);
      MergeIsBitOr(OrAll(groups[..n]), groups[n].permissions);
    }
  }

  // ---------- the serializer field ----------

  /** `PermissionsField.to_representation`. */
  function ToRepresentation(n: nat): map<string, bool> {
    var p := Display(n);
    map["create" := p[0] == '1', "read" := p[1] == '1', "update" := p[2] == '1', "delete" := p[3] == '1']
  }

  /** `PermissionsField.to_internal_value`: `None` for wrong keys. */
  function ToInternalValue(data: map<string, bool>): Option<nat> {
    if data.Keys != {"create", "read", "update", "delete"} then None
    else
      Some((if data["create"] then 8 else 0) + (if data["read"] then 4 else 0) +
           (if data["update"] then 2 else 0) + (if data["delete"] then 1 else 0))
  }

  /** What a group's number grants: the digit of the codec's key that stands for the name, and
      nothing under a name that stands for none. */
  lemma GrantsExactly(g: Group, name: string)
    ensures var shown := ToRepresentation(g.permissions);
      Grants(g, name) <==>
        (name in {"POST", "create"} && shown["create"]) ||
        (name in {"GET", "HEAD", "OPTIONS", "list", "retrieve"} && shown["read"]) ||
        (name in {"PUT", "PATCH", "update", "partial_update"} && shown["update"]) ||
        (name in {"DELETE", "destroy"} && shown["delete"])
  {
    KeysDiffer();
    ShownDigits(g.permissions);
  }

  lemma ShownDigits(n: nat)
    ensures var shown, p := ToRepresentation(n), Display(n);
      (shown["create"] <==> p[0] == '1') && (shown["read"] <==> p[1] == '1') &&
      (shown["update"] <==> p[2] == '1') && (shown["delete"] <==> p[3] == '1')
  {
    KeysDiffer();
  }

  /** The keys of the codec are the binary digits of the number, from 15 on all of them. */
  lemma RepresentationExactly(n: nat)
    ensures var shown := ToRepresentation(n);
      (shown["create"] <==> n > 15 || n / 8 % 2 == 1) && (shown["read"] <==> n > 15 || n / 4 % 2 == 1) &&
      (shown["update"] <==> n > 15 || n / 2 % 2 == 1) && (shown["delete"] <==> n > 15 || n % 2 == 1)
  {
    ShownDigits(n);
    DisplayDigits(n);
  }

  lemma KeysDiffer()
    ensures "create" != "read" && "create" != "update" && "create" != "delete"
    ensures "read" != "update" && "read" != "delete" && "update" != "delete"
  {
    assert "create"[0] != "read"[0] && "create"[0] != "update"[0] && "create"[0] != "delete"[0];
    assert "read"[0] != "update"[0] && "read"[0] != "delete"[0] && "update"[0] != "delete"[0];
  }

  /** A number survives the codec up to clamping at 15. */
  lemma NumberRoundTrip(n: nat)
    ensures ToInternalValue(ToRepresentation(n)) == Some(Clamped(n))
  {
    KeysDiffer();
    var m := Clamped(n);
    assert m == m / 8 * 8 + m / 4 % 2 * 4 + m / 2 % 2 * 2 + m % 2;
  }

  /** Exactly the dicts with the four keys are accepted, and they survive the codec. */
  lemma DictRoundTrip(data: map<string, bool>)
    ensures ToInternalValue(data).Some? <==> data.Keys == {"create", "read", "update", "delete"}
    ensures ToInternalValue(data).Some? ==>
      ToInternalValue(data).value < 16 && ToRepresentation(ToInternalValue(data).value) == data
  {
    KeysDiffer();
    if ToInternalValue(data).Some? {
      var n := ToInternalValue(data).value;
      var r := ToRepresentation(n);
      assert r.Keys == data.Keys;
      assert n / 8 == (if data["create"] then 1 else 0);
      assert n / 4 % 2 == (if data["read"] then 1 else 0);
      assert n / 2 % 2 == (if data["update"] then 1 else 0);
      assert n % 2 == (if data["delete"] then 1 else 0);
    }
  }
}
