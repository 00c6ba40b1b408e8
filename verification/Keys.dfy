/** Record keys as the texts they travel in, and which of them a lookup recognises. */
module Keys {
  import opened Texts
  import opened Json
  import opened Models

  // ---------- valid_uuid4 ----------

  /** What is left after `n` hexadecimal digits. */
  function AfterHex(t: Text, n: nat): Option<Text>
    decreases n
  {
    if n == 0 then Some(t)
    else if t == [] || HexValue(t[0]).None? then None
    else AfterHex(t[1..], n - 1)
  }

  function AfterDash(t: Text): Text {
    if t != [] && t[0] == DASH then t[1..] else t
  }

  /** The last two groups, the first of them with the variant of section 4.1.1 of RFC 4122. */
  predicate VariantGroups(t: Text) {
    t != [] && HexValue(t[0]).Some? && 8 <= HexValue(t[0]).value <= 11 &&
    match AfterHex(t[1..], 3)
    case None => false
    case Some(d) => AfterHex(AfterDash(d), 12) == Some([])
  }

  /** The last three groups, the first of them with the version. */
  predicate VersionGroups(t: Text) {
    t != [] && t[0] == '4' as int &&
    match AfterHex(t[1..], 3)
    case None => false
    case Some(c) => VariantGroups(AfterDash(c))
  }

  /** `valid_uuid4`: dashes may be missing, case does not matter; version 4 and its variant are
      required. */
  predicate ValidUuid4(t: Text) {
    match AfterHex(t, 8)
    case None => false
    case Some(a) =>
      match AfterHex(AfterDash(a), 4)
      case None => false
      case Some(b) => VersionGroups(AfterDash(b))
  }

  function Lower(t: Text): (r: Text)
    ensures |r| == |t|
    ensures forall i :: 0 <= i < |t| ==> r[i] == if 'A' as int <= t[i] <= 'Z' as int then t[i] + 32 else t[i]
  {
    seq(|t|, i requires 0 <= i < |t| => if 'A' as int <= t[i] <= 'Z' as int then t[i] + 32 else t[i])
  }

  function WithoutDashes(t: Text): (r: Text)
    ensures |r| <= |t|
    ensures forall c :: c in r ==> c in t && c != DASH
  {
    if t == [] then [] else (if t[0] == DASH then [] else [t[0]]) + WithoutDashes(t[1..])
  }

  lemma {:induction false} HexWithoutDashes(t: Text, n: nat)
    requires AfterHex(t, n).Some?
    ensures |WithoutDashes(t)| == n + |WithoutDashes(AfterHex(t, n).value)|
    decreases n
  {
    if n > 0 {
      HexWithoutDashes(t[1..], n - 1);
    }
  }

  predicate HexOrDash(c: Code) {
    c == DASH || HexValue(c).Some?
  }

  predicate AllHexOrDash(t: Text) {
    forall i :: 0 <= i < |t| ==> HexOrDash(t[i])
  }

  lemma {:induction false} HexCharacters(t: Text, n: nat)
    requires AfterHex(t, n).Some? && AllHexOrDash(AfterHex(t, n).value)
    ensures AllHexOrDash(t)
    decreases n
  {
    if n > 0 {
      HexCharacters(t[1..], n - 1);
      assert t == [t[0]] + t[1..];
    }
  }

  lemma DashCharacters(t: Text)
    requires AllHexOrDash(AfterDash(t))
    ensures AllHexOrDash(t)
  {
    if AfterDash(t) != t {
      assert t == [t[0]] + AfterDash(t);
    }
  }

  lemma HeadCharacters(t: Text)
    requires t != [] && HexOrDash(t[0]) && AllHexOrDash(t[1..])
    ensures AllHexOrDash(t)
  {
    assert t == [t[0]] + t[1..];
  }

  /** A text that passes `valid_uuid4` has 32 hexadecimal digits. */
  lemma ValidUuidDigits(t: Text)
    requires ValidUuid4(t)
    ensures |WithoutDashes(t)| == 32 && AllHexOrDash(t)
  {
    var a := AfterHex(t, 8).value;
    HexWithoutDashes(t, 8);
    var b := AfterHex(AfterDash(a), 4).value;
    HexWithoutDashes(AfterDash(a), 4);
    var b' := AfterDash(b);
    var c := AfterHex(b'[1..], 3).value;
    HexWithoutDashes(b'[1..], 3);
    var c' := AfterDash(c);
    var d := AfterHex(c'[1..], 3).value;
    HexWithoutDashes(c'[1..], 3);
    HexWithoutDashes(AfterDash(d), 12);
    HexCharacters(AfterDash(d), 12);
    DashCharacters(d);
    HexCharacters(c'[1..], 3);
    HeadCharacters(c');
    DashCharacters(c);
    HexCharacters(b'[1..], 3);
    HeadCharacters(b');
    DashCharacters(b);
    HexCharacters(AfterDash(a), 4);
    DashCharacters(a);
    HexCharacters(t, 8);
  }

  // ---------- the pattern of valid_uuid4 ----------

  ghost predicate IsHexGroup(t: Text, n: nat) {
    |t| == n && forall i :: 0 <= i < n ==> HexValue(t[i]).Some?
  }

  ghost predicate IsSeparator(t: Text) {
    t == [] || t == [DASH]
  }

  /** Five groups of hexadecimal digits with or without dashes between them, the third with version 4
      and the fourth with its variant in front. */
  ghost predicate FollowsPattern(t: Text, groups: seq<Text>, dashes: seq<Text>) {
    |groups| == 5 && |dashes| == 4 && (forall i :: 0 <= i < 4 ==> IsSeparator(dashes[i])) &&
    IsHexGroup(groups[0], 8) && IsHexGroup(groups[1], 4) && IsHexGroup(groups[2], 4) &&
    IsHexGroup(groups[3], 4) && IsHexGroup(groups[4], 12) &&
    groups[2][0] == '4' as int && 8 <= HexValue(groups[3][0]).value <= 11 &&
    t == groups[0] + (dashes[0] + (groups[1] + (dashes[1] + (groups[2] + (dashes[2] +
         (groups[3] + (dashes[3] + groups[4])))))))
  }

  lemma {:induction false} AfterHexExactly(t: Text, n: nat, rest: Text)
    ensures AfterHex(t, n) == Some(rest) <==> n <= |t| && IsHexGroup(t[..n], n) && rest == t[n..]
    decreases n
  {
    if n > 0 && t != [] && HexValue(t[0]).Some? {
      AfterHexExactly(t[1..], n - 1, rest);
      if n <= |t| {
        assert t[n..] == t[1..][n - 1..];
        assert t[..n] == [t[0]] + t[1..][..n - 1];
      }
    }
  }

  lemma GroupThen(g: Text, n: nat, rest: Text)
    requires IsHexGroup(g, n)
    ensures AfterHex(g + rest, n) == Some(rest)
  {
    AfterHexExactly(g + rest, n, rest);
    assert (g + rest)[..n] == g && (g + rest)[n..] == rest;
  }

  lemma SeparatorThen(s: Text, g: Text, n: nat, rest: Text)
    requires IsSeparator(s) && IsHexGroup(g, n) && n > 0
    ensures AfterDash(s + (g + rest)) == g + rest
  {
    assert (g + rest)[0] == g[0];
    if s == [] {
      assert s + (g + rest) == g + rest;
    } else {
      assert (s + (g + rest))[1..] == g + rest;
    }
  }

  lemma PatternPasses(t: Text, groups: seq<Text>, dashes: seq<Text>)
    requires FollowsPattern(t, groups, dashes)
    ensures ValidUuid4(t)
  {
    var e := groups[4];
    var d := groups[3] + (dashes[3] + e);
    var c := groups[2] + (dashes[2] + d);
    var b := groups[1] + (dashes[1] + c);
    GroupThen(groups[0], 8, dashes[0] + b);
    SeparatorThen(dashes[0], groups[1], 4, dashes[1] + c);
    GroupThen(groups[1], 4, dashes[1] + c);
    SeparatorThen(dashes[1], groups[2], 4, dashes[2] + d);
    FourThen(groups[2], dashes[2] + d);
    SeparatorThen(dashes[2], groups[3], 4, dashes[3] + e);
    FourThen(groups[3], dashes[3] + e);
    assert e + [] == e;
    SeparatorThen(dashes[3], e, 12, []);
    GroupThen(e, 12, []);
  }

  lemma FourThen(g: Text, rest: Text)
    requires IsHexGroup(g, 4)
    ensures (g + rest)[0] == g[0] && AfterHex((g + rest)[1..], 3) == Some(rest)
  {
    assert (g + rest)[1..] == g[1..] + rest;
    GroupThen(g[1..], 3, rest);
  }

  /** The dash in front, if there is one. */
  function Separator(t: Text): Text {
    if t != [] && t[0] == DASH then [DASH] else []
  }

  lemma DashSplit(t: Text)
    ensures t == Separator(t) + AfterDash(t) && IsSeparator(Separator(t))
  {
  }

  /** A group, the dash behind it, and what follows. */
  lemma SplitGroup(t: Text, n: nat) returns (g: Text, s: Text, rest: Text)
    requires AfterHex(t, n).Some?
    ensures IsHexGroup(g, n) && IsSeparator(s) && t == g + (s + rest)
    ensures rest == AfterDash(AfterHex(t, n).value)
  {
    var after := AfterHex(t, n).value;
    AfterHexExactly(t, n, after);
    DashSplit(after);
    g, s, rest := t[..n], Separator(after), AfterDash(after);
  }

  /** The same of a group whose first digit is looked at before. */
  lemma SplitFour(t: Text) returns (g: Text, s: Text, rest: Text)
    requires t != [] && HexValue(t[0]).Some? && AfterHex(t[1..], 3).Some?
    ensures IsHexGroup(g, 4) && g[0] == t[0] && IsSeparator(s) && t == g + (s + rest)
    ensures rest == AfterDash(AfterHex(t[1..], 3).value)
  {
    var tail;
    tail, s, rest := SplitGroup(t[1..], 3);
    g := [t[0]] + tail;
    assert t == [t[0]] + t[1..];
    assert g + (s + rest) == [t[0]] + (tail + (s + rest));
  }

  lemma PassesPattern(t: Text) returns (groups: seq<Text>, dashes: seq<Text>)
    requires ValidUuid4(t)
    ensures FollowsPattern(t, groups, dashes)
  {
    var a, s0, w1 := SplitGroup(t, 8);
    var b, s1, w2 := SplitGroup(w1, 4);
    var c, s2, w3 := SplitFour(w2);
    var d, s3, e := SplitFour(w3);
    AfterHexExactly(e, 12, []);
    assert e[..12] == e;
    groups, dashes := [a, b, c, d, e], [s0, s1, s2, s3];
    assert w3 == d + (s3 + e) && w2 == c + (s2 + w3) && w1 == b + (s1 + w2);
  }

  /** Exactly the texts of this pattern pass `valid_uuid4`. */
  lemma ValidUuidExactly(t: Text)
    ensures ValidUuid4(t) <==> exists groups, dashes :: FollowsPattern(t, groups, dashes)
  {
    if ValidUuid4(t) {
      var groups, dashes := PassesPattern(t);
    }
    if groups, dashes :| FollowsPattern(t, groups, dashes) {
      PatternPasses(t, groups, dashes);
    }
  }

  // ---------- the key a filter looks for ----------

  /** Dashes put in at the places of the canonical spelling. */
  function Dashed(h: Text): (u: Uuid)
    requires |h| == 32 && forall i :: 0 <= i < 32 ==> IsLowerHex(h[i])
  {
    h[..8] + [DASH] + h[8..12] + [DASH] + h[12..16] + [DASH] + h[16..20] + [DASH] + h[20..]
  }

  /** The canonical spelling of a UUID given with or without dashes, in any case. */
  function Canonical(t: Text): Uuid
    requires ValidUuid4(t)
  {
    ValidUuidDigits(t);
    LowerDigits(t);
    Dashed(Lower(WithoutDashes(t)))
  }

  lemma LowerDigits(t: Text)
    requires AllHexOrDash(t)
    ensures forall i :: 0 <= i < |WithoutDashes(t)| ==> IsLowerHex(Lower(WithoutDashes(t))[i])
  {
    var w := WithoutDashes(t);
    forall i | 0 <= i < |w| ensures IsLowerHex(Lower(w)[i]) {
      assert w[i] in w;
    }
  }

  /** The key a database filter on this text looks for, in the UUID column or in the integer
      column; `None` where the filter raises. */
  function KeyOf(pk: Text): Option<Key> {
    if ValidUuid4(pk) then Some(UuidKey(Canonical(pk)))
    else if pk != [] && Digits(pk) == |pk| then Some(IdKey(DigitsValue(pk)))
    else None
  }

  // ---------- which keys are recognised ----------

  predicate IsVersion4(u: Uuid) {
    u[14] == '4' as int &&
    (u[19] == '8' as int || u[19] == '9' as int || u[19] == 'a' as int || u[19] == 'b' as int)
  }

  /** An integer whose spelling does not look like a UUID, or a UUID of version 4. */
  predicate Recognised(k: Key) {
    match k
    case IdKey(n) => !ValidUuid4(Decimal(n))
    case UuidKey(u) => IsVersion4(u)
  }

  lemma {:induction false} AfterHexSlice(t: Text, k: nat, n: nat)
    requires k + n <= |t| && forall i :: k <= i < k + n ==> HexValue(t[i]).Some?
    ensures AfterHex(t[k..], n) == Some(t[k + n..])
    decreases n
  {
    if n > 0 {
      assert t[k..][0] == t[k] && t[k..][1..] == t[k + 1..];
      AfterHexSlice(t, k + 1, n - 1);
    }
  }

  /** Of the canonical spellings, exactly those of version 4 pass `valid_uuid4`. */
  lemma Version4Exactly(u: Uuid)
    ensures ValidUuid4(u) <==> IsVersion4(u)
  {
    assert u[0..] == u;
    AfterHexSlice(u, 0, 8);
    assert AfterDash(u[8..]) == u[9..];
    AfterHexSlice(u, 9, 4);
    assert AfterDash(u[13..]) == u[14..];
    VersionOfUuid(u);
    VariantOfUuid(u);
  }

  lemma VersionOfUuid(u: Uuid)
    ensures VersionGroups(u[14..]) <==> u[14] == '4' as int && VariantGroups(u[19..])
  {
    assert u[14..][0] == u[14] && u[14..][1..] == u[15..];
    AfterHexSlice(u, 15, 3);
    assert AfterDash(u[18..]) == u[19..];
  }

  lemma VariantOfUuid(u: Uuid)
    ensures VariantGroups(u[19..]) <==>
      u[19] == '8' as int || u[19] == '9' as int || u[19] == 'a' as int || u[19] == 'b' as int
  {
    assert u[19..][0] == u[19] && u[19..][1..] == u[20..];
    AfterHexSlice(u, 20, 3);
    LastGroup(u);
  }

  lemma LastGroup(u: Uuid)
    ensures AfterHex(AfterDash(u[23..]), 12) == Some([])
  {
    var t := u[24..];
    assert AfterDash(u[23..]) == t;
    forall i | 0 <= i < 12 ensures HexValue(t[i]).Some? {
      assert t[i] == u[24 + i];
    }
    assert t[0..] == t && t[12..] == [];
    AfterHexSlice(t, 0, 12);
  }

  lemma {:induction false} WithoutDashesConcat(a: Text, b: Text)
    ensures WithoutDashes(a + b) == WithoutDashes(a) + WithoutDashes(b)
  {
    if a == [] {
      assert a + b == b && WithoutDashes(a) + WithoutDashes(b) == WithoutDashes(b);
    } else {
      assert (a + b)[0] == a[0] && (a + b)[1..] == a[1..] + b;
      WithoutDashesConcat(a[1..], b);
    }
  }

  lemma {:induction false} NoDashes(t: Text)
    requires DASH !in t
    ensures WithoutDashes(t) == t
  {
    if t != [] {
      NoDashes(t[1..]);
    }
  }

  lemma DashBetween(a: Text, b: Text)
    requires DASH !in a
    ensures WithoutDashes(a + [DASH] + b) == a + WithoutDashes(b)
  {
    WithoutDashesConcat(a + [DASH], b);
    WithoutDashesConcat(a, [DASH]);
    NoDashes(a);
    assert [DASH][1..] == [];
    assert a + [] == a;
  }

  lemma UuidParts(u: Uuid)
    ensures WithoutDashes(u) == u[..8] + (u[9..13] + (u[14..18] + (u[19..23] + u[24..])))
  {
    assert u == u[..8] + [DASH] + u[9..];
    assert u[9..] == u[9..13] + [DASH] + u[14..];
    assert u[14..] == u[14..18] + [DASH] + u[19..];
    assert u[19..] == u[19..23] + [DASH] + u[24..];
    DashBetween(u[..8], u[9..]);
    DashBetween(u[9..13], u[14..]);
    DashBetween(u[14..18], u[19..]);
    DashBetween(u[19..23], u[24..]);
    NoDashes(u[24..]);
  }

  lemma CanonicalOfUuid(u: Uuid)
    requires ValidUuid4(u)
    ensures Canonical(u) == u
  {
    var h := WithoutDashes(u);
    ValidUuidDigits(u);
    LowerDigits(u);
    forall i | 0 <= i < |h| ensures IsLowerHex(h[i]) {
      assert h[i] in u;
    }
    LowerFixed(h);
    UuidParts(u);
    DashedParts(u[..8], u[9..13], u[14..18], u[19..23], u[24..]);
    UuidRejoined(u);
  }

  lemma LowerFixed(t: Text)
    requires forall i :: 0 <= i < |t| ==> IsLowerHex(t[i])
    ensures Lower(t) == t
  {
  }

  lemma DashedParts(a: Text, b: Text, c: Text, d: Text, e: Text)
    requires |a| == 8 && |b| == |c| == |d| == 4 && |e| == 12
    requires var h := a + (b + (c + (d + e))); forall i :: 0 <= i < 32 ==> IsLowerHex(h[i])
    ensures Dashed(a + (b + (c + (d + e)))) == a + [DASH] + b + [DASH] + c + [DASH] + d + [DASH] + e
  {
    var h := a + (b + (c + (d + e)));
    assert h[..8] == a && h[8..12] == b && h[12..16] == c;
    assert h[16..20] == d && h[20..] == e;
  }

  lemma UuidRejoined(u: Uuid)
    ensures u[..8] + [DASH] + u[9..13] + [DASH] + u[14..18] + [DASH] + u[19..23] + [DASH] + u[24..] == u
  {
  }

  lemma {:induction false} DecimalDigits(n: nat)
    ensures Digits(Decimal(n)) == |Decimal(n)| && DigitsValue(Decimal(n)) == n
  {
    var t := Decimal(n);
    AllDigits(t);
    if n >= 10 {
      DecimalDigits(n / 10);
      assert t[..|t| - 1] == Decimal(n / 10);
    } else {
      assert t[..0] == [];
    }
  }

  lemma {:induction false} AllDigits(t: Text)
    ensures Digits(t) == |t| <==> forall i :: 0 <= i < |t| ==> IsDigit(t[i])
  {
    if t != [] {
      AllDigits(t[1..]);
      assert t == [t[0]] + t[1..];
    }
  }

  /** A lookup by the spelling of a key looks for this key exactly when the key is recognised; a
      UUID of another version makes the filter raise. */
  lemma KeyOfExactly(k: Key)
    ensures KeyOf(KeyText(k)) == Some(k) <==> Recognised(k)
    ensures k.UuidKey? && !Recognised(k) ==> KeyOf(KeyText(k)) == None
  {
    match k
    case IdKey(n) => DecimalDigits(n);
    case UuidKey(u) =>
      Version4Exactly(u);
      AllDigits(u);
      assert u[8] == DASH && !IsDigit(u[8]);
      if ValidUuid4(u) {
        CanonicalOfUuid(u);
      }
  }

  lemma CanonicalDigits(t: Text)
    requires ValidUuid4(t)
    ensures WithoutDashes(Canonical(t)) == Lower(WithoutDashes(t))
  {
    ValidUuidDigits(t);
    LowerDigits(t);
    DashedDigits(Lower(WithoutDashes(t)));
  }

  lemma DashedDigits(h: Text)
    requires |h| == 32 && forall i :: 0 <= i < 32 ==> IsLowerHex(h[i])
    ensures WithoutDashes(Dashed(h)) == h
  {
    var u := Dashed(h);
    UuidParts(u);
    SlicesOfDashed(h[..8], h[8..12], h[12..16], h[16..20], h[20..], u);
    assert h == h[..8] + (h[8..12] + (h[12..16] + (h[16..20] + h[20..])));
  }

  lemma SlicesOfDashed(a: Text, b: Text, c: Text, d: Text, e: Text, u: Text)
    requires |a| == 8 && |b| == |c| == |d| == 4 && |e| == 12
    requires u == a + [DASH] + b + [DASH] + c + [DASH] + d + [DASH] + e
    ensures |u| == 36
    ensures u[..8] == a && u[9..13] == b && u[14..18] == c && u[19..23] == d && u[24..] == e
  {
  }

  lemma SameDigitsSameUuid(u: Uuid, v: Uuid)
    requires WithoutDashes(u) == WithoutDashes(v)
    ensures u == v
  {
    UuidParts(u);
    UuidParts(v);
    var h := WithoutDashes(u);
    assert u[..8] == h[..8] == v[..8] && u[9..13] == h[8..12] == v[9..13] && u[14..18] == h[12..16] == v[14..18];
    assert u[19..23] == h[16..20] == v[19..23] && u[24..] == h[20..] == v[24..];
    UuidRejoined(u);
    UuidRejoined(v);
  }

  /** The key a text stands for: the UUID with its digits, whatever their case and dashes, or the
      number it spells. */
  lemma KeyOfText(t: Text, k: Key)
    ensures KeyOf(t) == Some(k) <==>
      match k
      case UuidKey(u) => ValidUuid4(t) && WithoutDashes(u) == Lower(WithoutDashes(t))
      case IdKey(n) =>
        !ValidUuid4(t) && t != [] && (forall i :: 0 <= i < |t| ==> IsDigit(t[i])) && Digits(t) == |t| &&
        DigitsValue(t) == n
  {
    AllDigits(t);
    if ValidUuid4(t) {
      CanonicalDigits(t);
      if k.UuidKey? && WithoutDashes(k.u) == Lower(WithoutDashes(t)) {
        SameDigitsSameUuid(k.u, Canonical(t));
      }
    }
  }

  function Ten(k: nat): nat {
    if k == 0 then 1 else 10 * Ten(k - 1)
  }

  lemma {:induction false} DecimalLength(n: nat, k: nat)
    requires k > 0 && n < Ten(k)
    ensures |Decimal(n)| <= k
  {
    if n >= 10 {
      DecimalLength(n / 10, k - 1);
    }
  }

  /** Every key that fits its column is recognised, but for the UUIDs of other versions. */
  lemma ColumnKeyRecognised(k: Key)
    requires FitsColumn(k)
    ensures Recognised(k) <==> k.IdKey? || IsVersion4(k.u)
  {
    if k.IdKey? {
      assert Ten(10) == 10 * (10 * (10 * (10 * (10 * (10 * (10 * (10 * (10 * (10 * 1)))))))));
      DecimalLength(k.n, 10);
      if ValidUuid4(Decimal(k.n)) {
        ValidUuidDigits(Decimal(k.n));
      }
    }
  }

  /** The name space UUID for DNS of Appendix C of RFC 4122, which is of version 1. */
  const NAMESPACE_DNS: Text := Lit("6ba7b810-9dad-11d1-80b4-00c04fd430c8")

  lemma NamespaceUuid()
    ensures IsUuid(NAMESPACE_DNS) && !IsVersion4(NAMESPACE_DNS)
  {
    var s := "6ba7b810-9dad-11d1-80b4-00c04fd430c8";
    assert |s| == 36;
    forall i | 0 <= i < 36
      ensures if i == 8 || i == 13 || i == 18 || i == 23 then NAMESPACE_DNS[i] == DASH else IsLowerHex(NAMESPACE_DNS[i])
    {
      assert NAMESPACE_DNS[i] == s[i] as int;
    }
    assert NAMESPACE_DNS[14] == s[14] as int == '1' as int;
  }
}
