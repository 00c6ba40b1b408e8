/** `str.replace`, and what it does inside a printed JSON string. */
module Replace {
  import opened Texts
  import opened Json

  /** `s.replace(pat, sub)`: leftmost, without overlaps and without looking again at what was
      put in. */
  function Replaced(s: Text, pat: Text, sub: Text): Text
    requires pat != []
    decreases |s|
  {
    if s == [] then []
    else if pat <= s then sub + Replaced(s[|pat|..], pat, sub)
    else [s[0]] + Replaced(s[1..], pat, sub)
  }

  /** A pattern that cannot overlap itself (its first character occurs once) and that `dumps`
      prints as it is. */
  ghost predicate Anchored(pat: Text) {
    pat != [] &&
    (forall k :: 1 <= k < |pat| ==> pat[k] != pat[0]) &&
    forall k :: 0 <= k < |pat| ==> Unescaped(pat[k])
  }

  lemma PrefixCons(a: Text, b: Text)
    requires a != [] && b != [] && a[0] == b[0]
    ensures a <= b <==> a[1..] <= b[1..]
  {
    if a <= b {
      assert a == b[..|a|];
      assert a[1..] == b[1..][..|a| - 1];
    }
    if a[1..] <= b[1..] {
      assert a == [a[0]] + a[1..] && b == [b[0]] + b[1..];
    }
  }

  // ---------- on any text ----------

  /** No occurrence of the pattern can straddle the seam between `a` and `b`. */
  predicate Seam(pat: Text, a: Text, b: Text) {
    a == [] || b == [] || a[|a| - 1] !in pat || b[0] !in pat
  }

  lemma NoStraddle(pat: Text, a: Text, b: Text)
    requires Seam(pat, a, b) && a != [] && pat != []
    ensures pat <= a + b ==> pat <= a
  {
    if |a| < |pat| {
      if b != [] {
        assert (a + b)[|a| - 1] == a[|a| - 1] && (a + b)[|a|] == b[0];
        assert pat[|a| - 1] in pat && pat[|a|] in pat;
      }
    } else {
      assert (a + b)[..|pat|] == a[..|pat|];
    }
  }

  lemma {:induction false} ReplacedConcat(a: Text, b: Text, pat: Text, sub: Text)
    requires pat != [] && Seam(pat, a, b)
    ensures Replaced(a + b, pat, sub) == Replaced(a, pat, sub) + Replaced(b, pat, sub)
    decreases |a|
  {
    if a == [] {
      assert a + b == b;
      assert Replaced(a, pat, sub) + Replaced(b, pat, sub) == Replaced(b, pat, sub);
    } else if pat <= a {
      assert (a + b)[..|pat|] == a[..|pat|];
      assert (a + b)[|pat|..] == a[|pat|..] + b;
      ReplacedConcat(a[|pat|..], b, pat, sub);
    } else {
      NoStraddle(pat, a, b);
      assert (a + b)[1..] == a[1..] + b;
      ReplacedConcat(a[1..], b, pat, sub);
    }
  }

  /** Text without the pattern's first character is left alone, whatever follows it. */
  lemma {:induction false} ReplacedSkips(a: Text, b: Text, pat: Text, sub: Text)
    requires pat != [] && pat[0] !in a
    ensures Replaced(a + b, pat, sub) == a + Replaced(b, pat, sub)
    decreases |a|
  {
    if a == [] {
      assert a + b == b;
      assert a + Replaced(b, pat, sub) == Replaced(b, pat, sub);
    } else {
      assert (a + b)[0] == a[0] && a[0] in a;
      assert (a + b)[1..] == a[1..] + b;
      ReplacedSkips(a[1..], b, pat, sub);
    }
  }

  lemma ReplacedNothing(a: Text, pat: Text, sub: Text)
    requires pat != [] && pat[0] !in a
    ensures Replaced(a, pat, sub) == a
  {
    ReplacedSkips(a, [], pat, sub);
    assert a + [] == a;
  }

  /** The only occurrence is filled in. */
  lemma ReplacedOnce(before: Text, pat: Text, after: Text, sub: Text)
    requires pat != [] && pat[0] !in before && pat[0] !in after
    ensures Replaced(before + (pat + after), pat, sub) == before + (sub + after)
  {
    ReplacedSkips(before, pat + after, pat, sub);
    assert (pat + after)[..|pat|] == pat && (pat + after)[|pat|..] == after;
    ReplacedNothing(after, pat, sub);
  }

  lemma NotReplacedHere(s: Text, pat: Text, sub: Text, k: nat)
    requires Anchored(pat) && pat <= sub && k < |pat|
    requires k == 0 ==> !(pat <= s)
    requires Replaced(s, pat, sub) != [] && Replaced(s, pat, sub)[0] == pat[k]
    ensures s != [] && !(pat <= s)
  {
    if pat <= s {
      PrefixOfBy(s, pat, sub);
    }
  }

  lemma {:induction false} HeadFrom(s: Text, pat: Text, sub: Text, k: nat)
    requires Anchored(pat) && pat <= sub && k <= |pat|
    requires pat[k..] <= Replaced(s, pat, sub)
    requires k == 0 ==> !(pat <= s)
    ensures pat[k..] <= s
    decreases |pat| - k
  {
    if k < |pat| {
      var q := Replaced(s, pat, sub);
      assert pat[k..][0] == pat[k];
      assert q[0] == pat[k];
      NotReplacedHere(s, pat, sub, k);
      assert q[1..] == Replaced(s[1..], pat, sub);
      assert pat[k..][1..] == pat[k + 1..];
      PrefixCons(pat[k..], q);
      HeadFrom(s[1..], pat, sub, k + 1);
      PrefixCons(pat[k..], s);
    }
  }

  /** Putting text behind each occurrence makes no occurrence at the head. */
  lemma ReplacedHead(s: Text, pat: Text, sub: Text)
    requires Anchored(pat) && pat <= sub && !(pat <= s)
    ensures !(pat <= Replaced(s, pat, sub))
  {
    if pat <= Replaced(s, pat, sub) {
      assert pat[0..] == pat;
      HeadFrom(s, pat, sub, 0);
    }
  }

  lemma {:induction false} ReplacedInjective(s: Text, t: Text, pat: Text, sub: Text)
    requires Anchored(pat) && pat <= sub
    requires Replaced(s, pat, sub) == Replaced(t, pat, sub)
    ensures s == t
    decreases |s| + |t|
  {
    if s == [] || t == [] {
    } else if pat <= s && pat <= t {
      var s', t' := s[|pat|..], t[|pat|..];
      assert Replaced(s, pat, sub)[|sub|..] == Replaced(s', pat, sub);
      assert Replaced(t, pat, sub)[|sub|..] == Replaced(t', pat, sub);
      ReplacedInjective(s', t', pat, sub);
      assert s == pat + s' && t == pat + t';
    } else if pat <= s {
      PrefixOfBy(s, pat, sub);
      ReplacedHead(t, pat, sub);
    } else if pat <= t {
      PrefixOfBy(t, pat, sub);
      ReplacedHead(s, pat, sub);
    } else {
      assert Replaced(s, pat, sub)[1..] == Replaced(s[1..], pat, sub);
      assert Replaced(t, pat, sub)[1..] == Replaced(t[1..], pat, sub);
      ReplacedInjective(s[1..], t[1..], pat, sub);
      assert s == [s[0]] + s[1..] && t == [t[0]] + t[1..];
    }
  }

  lemma PrefixOfBy(s: Text, pat: Text, sub: Text)
    requires pat != [] && pat <= sub && pat <= s
    ensures pat <= Replaced(s, pat, sub)
  {
    var q := Replaced(s, pat, sub);
    assert q[..|sub|] == sub;
    assert q[..|pat|] == sub[..|pat|] == pat;
  }

  // ---------- inside an escaped string ----------

  /** Escaping neither makes nor breaks an occurrence of unescaped characters at the head. */
  lemma {:induction false} EscapeHead(m: Text, s: Text)
    requires forall k :: 0 <= k < |m| ==> Unescaped(m[k])
    ensures m <= Escape(s) <==> m <= s
    ensures m <= s ==> Escape(s) == m + Escape(s[|m|..])
  {
    if m == [] {
      assert s[0..] == s;
      assert m + Escape(s) == Escape(s);
    } else if s != [] && s[0] == m[0] {
      EscapeHead(m[1..], s[1..]);
      EscapePlainHead(s);
      PrefixCons(m, Escape(s));
      PrefixCons(m, s);
      if m <= s {
        assert s[1..][|m| - 1..] == s[|m|..];
        ConsConcat(m, Escape(s[|m|..]));
      }
    } else if s != [] {
      assert Escape(s)[0] == EscapeChar(s[0])[0];
    }
  }

  lemma EscapePlainHead(s: Text)
    requires s != [] && Unescaped(s[0])
    ensures Escape(s) == [s[0]] + Escape(s[1..]) && Escape(s)[1..] == Escape(s[1..])
  {
  }

  lemma ConsConcat(m: Text, t: Text)
    requires m != []
    ensures [m[0]] + (m[1..] + t) == m + t
  {
    assert m == [m[0]] + m[1..];
  }

  lemma EscapeCharLacks(c: Code, a: Code)
    requires Unescaped(a) && !Unescaped(c)
    requires a == '#' as int
    ensures a !in EscapeChar(c)
  {
  }

  /** Substituting in the escaped text follows the raw string, character by character. */
  lemma ReplacedEscapeStep(s: Text, pat: Text, sub: Text)
    requires s != [] && Anchored(pat) && pat[0] == '#' as int
    ensures pat <= s ==> Replaced(Escape(s), pat, sub) == sub + Replaced(Escape(s[|pat|..]), pat, sub)
    ensures !(pat <= s) ==> Replaced(Escape(s), pat, sub) == EscapeChar(s[0]) + Replaced(Escape(s[1..]), pat, sub)
  {
    EscapeHead(pat, s);
    var e := Escape(s);
    if pat <= s {
      assert e[|pat|..] == Escape(s[|pat|..]);
    } else if Unescaped(s[0]) {
      assert e[1..] == Escape(s[1..]);
    } else {
      EscapeCharLacks(s[0], pat[0]);
      ReplacedSkips(EscapeChar(s[0]), Escape(s[1..]), pat, sub);
    }
  }

  // ---------- reading a literal back ----------

  /** No high surrogate stands right before a low one; `json.loads` joins such a pair. */
  ghost predicate NoSplitPair(s: Text) {
    forall i :: 0 <= i < |s| - 1 ==> !(IsHigh(s[i]) && IsLow(s[i + 1]))
  }

  /** A character the parser takes as it is inside a string. */
  predicate PlainInString(c: Code) { c >= 0x20 && c != QUOTE && c != BACKSLASH }

  /** A text made of characters that a JSON string may contain unescaped. */
  ghost predicate Clean(a: Text) {
    forall i :: 0 <= i < |a| ==> PlainInString(a[i])
  }

  lemma HexRoundTrip(n: int)
    requires 0 <= n < 16
    ensures HexValue(HexDigit(n)) == Some(n)
  {
  }

  lemma FourHexDigits(n: int)
    requires 0 <= n < 0x1_0000
    ensures n == n / 0x1000 * 0x1000 + n / 0x100 % 16 * 0x100 + n / 0x10 % 16 * 0x10 + n % 16
  {
    var a := n / 16;
    var b := a / 16;
    assert b == n / 0x100 && b / 16 == n / 0x1000;
    assert n == 16 * a + n % 16 && a == 16 * b + a % 16 && b == 16 * (b / 16) + b % 16;
  }

  lemma ReadUnicodeEscape(n: int, rest: Text)
    requires 0 <= n < 0x1_0000
    ensures ReadUnicode(UnicodeEscape(n) + rest) == Some(n)
  {
    var w := UnicodeEscape(n) + rest;
    HexRoundTrip(n / 0x1000);
    HexRoundTrip(n / 0x100 % 16);
    HexRoundTrip(n / 0x10 % 16);
    HexRoundTrip(n % 16);
    assert w[0] == BACKSLASH && w[1] == 'u' as int;
    assert w[2] == HexDigit(n / 0x1000) && w[3] == HexDigit(n / 0x100 % 16);
    assert w[4] == HexDigit(n / 0x10 % 16) && w[5] == HexDigit(n % 16);
    FourHexDigits(n);
  }

  /** The text does not start with the escape of a low surrogate. */
  predicate NoLowHead(w: Text) {
    var r := ReadUnicode(w);
    r.None? || !IsLow(r.value)
  }

  lemma ReadAstral(c: Code, w: Text)
    requires c >= 0x1_0000
    ensures ReadEscape(EscapeChar(c) + w) == Some((c, 12))
  {
    var hi, lo := HighHalf(c), LowHalf(c);
    var t := EscapeChar(c) + w;
    assert t == UnicodeEscape(hi) + (UnicodeEscape(lo) + w);
    ReadUnicodeEscape(hi, UnicodeEscape(lo) + w);
    ReadUnicodeEscape(lo, w);
    assert t[1] == 'u' as int;
    assert t[6..] == UnicodeEscape(lo) + w;
    assert 0x1_0000 + (hi - 0xD800) * 0x400 + (lo - 0xDC00) == c;
  }

  lemma ReadBasic(c: Code, w: Text)
    requires c < 0x1_0000 && !Unescaped(c) && ShortEscape(c).None?
    requires IsHigh(c) ==> NoLowHead(w)
    ensures ReadEscape(EscapeChar(c) + w) == Some((c, 6))
  {
    var t := EscapeChar(c) + w;
    ReadUnicodeEscape(c, w);
    assert t[1] == 'u' as int;
    assert t[6..] == w;
  }

  /** One escaped character is read back, unless it is a high surrogate before a low escape. */
  lemma ScanChar(c: Code, w: Text)
    requires ScanString(w).Some?
    requires IsHigh(c) ==> NoLowHead(w)
    ensures ScanString(EscapeChar(c) + w) == Some(([c] + ScanString(w).value.0, ScanString(w).value.1))
  {
    var t := EscapeChar(c) + w;
    assert t[0] == EscapeChar(c)[0];
    assert t[|EscapeChar(c)|..] == w;
    if !Unescaped(c) {
      assert ReadEscape(t) == Some((c, |EscapeChar(c)|)) by {
        if ShortEscape(c).Some? {
          assert t[1] == ShortEscape(c).value;
        } else if c < 0x1_0000 {
          ReadBasic(c, w);
        } else {
          ReadAstral(c, w);
        }
      }
    }
  }

  lemma {:induction false} ScanPlain(a: Text, w: Text)
    requires Clean(a)
    requires ScanString(w).Some?
    ensures ScanString(a + w) == Some((a + ScanString(w).value.0, ScanString(w).value.1))
  {
    if a == [] {
      assert a + w == w && a + ScanString(w).value.0 == ScanString(w).value.0;
    } else {
      assert (a + w)[0] == a[0] && (a + w)[1..] == a[1..] + w;
      ScanPlain(a[1..], w);
      assert [a[0]] + (a[1..] + ScanString(w).value.0) == a + ScanString(w).value.0;
    }
  }

  lemma EscapeCharNoLow(c: Code, w: Text)
    requires !IsLow(c)
    ensures NoLowHead(EscapeChar(c) + w)
  {
    var t := EscapeChar(c) + w;
    assert t[0] == EscapeChar(c)[0];
    if Unescaped(c) {
    } else if ShortEscape(c).Some? {
      assert t[1] == ShortEscape(c).value;
    } else if c < 0x1_0000 {
      ReadUnicodeEscape(c, w);
    } else {
      assert t == UnicodeEscape(HighHalf(c)) + (UnicodeEscape(LowHalf(c)) + w);
      ReadUnicodeEscape(HighHalf(c), UnicodeEscape(LowHalf(c)) + w);
    }
  }

  /** The text from inside a substituted literal on: its body, its closing quote and the rest. */
  function LiteralTail(s: Text, pat: Text, sub: Text, rest: Text): Text
    requires pat != []
  {
    Replaced(Escape(s), pat, sub) + [QUOTE] + rest
  }

  lemma LiteralTailStep(s: Text, pat: Text, sub: Text, rest: Text)
    requires s != [] && Anchored(pat) && pat[0] == '#' as int
    ensures LiteralTail(s, pat, sub, rest) ==
      if pat <= s then sub + LiteralTail(s[|pat|..], pat, sub, rest)
      else EscapeChar(s[0]) + LiteralTail(s[1..], pat, sub, rest)
  {
    ReplacedEscapeStep(s, pat, sub);
    if pat <= s {
      RegroupTail(sub, Replaced(Escape(s[|pat|..]), pat, sub), rest);
    } else {
      RegroupTail(EscapeChar(s[0]), Replaced(Escape(s[1..]), pat, sub), rest);
    }
  }

  lemma RegroupTail(a: Text, b: Text, rest: Text)
    ensures (a + b) + [QUOTE] + rest == a + (b + [QUOTE] + rest)
  {
  }

  lemma LiteralTailEnd(pat: Text, sub: Text, rest: Text)
    requires pat != []
    ensures LiteralTail([], pat, sub, rest) == [QUOTE] + rest
  {
    assert Replaced(Escape([]), pat, sub) == [];
    assert [] + [QUOTE] + rest == [QUOTE] + rest;
  }

  /** What follows an escaped high surrogate is not the escape of a low one. */
  lemma NoLowAfter(s: Text, pat: Text, sub: Text, rest: Text)
    requires Anchored(pat) && pat[0] == '#' as int && pat <= sub
    requires s == [] || !IsLow(s[0])
    ensures NoLowHead(LiteralTail(s, pat, sub, rest))
  {
    if s == [] {
      LiteralTailEnd(pat, sub, rest);
    } else {
      LiteralTailStep(s, pat, sub, rest);
      if pat <= s {
        assert LiteralTail(s, pat, sub, rest)[0] == sub[0] == pat[0];
      } else {
        EscapeCharNoLow(s[0], LiteralTail(s[1..], pat, sub, rest));
      }
    }
  }

  /** Substituting in a printed string and reading it gives the substituted string. */
  lemma {:induction false} ScanReplaced(s: Text, pat: Text, sub: Text, rest: Text)
    requires Anchored(pat) && pat[0] == '#' as int && pat <= sub
    requires Clean(sub) && NoSplitPair(s)
    ensures ScanString(LiteralTail(s, pat, sub, rest)) == Some((Replaced(s, pat, sub), rest))
    decreases |s|
  {
    if s == [] {
      LiteralTailEnd(pat, sub, rest);
      assert ([QUOTE] + rest)[1..] == rest;
    } else {
      LiteralTailStep(s, pat, sub, rest);
      if pat <= s {
        var s' := s[|pat|..];
        ScanReplaced(s', pat, sub, rest);
        ScanPlain(sub, LiteralTail(s', pat, sub, rest));
      } else {
        var s' := s[1..];
        ScanReplaced(s', pat, sub, rest);
        if IsHigh(s[0]) {
          assert s' != [] ==> s'[0] == s[1];
          NoLowAfter(s', pat, sub, rest);
        }
        ScanChar(s[0], LiteralTail(s', pat, sub, rest));
      }
    }
  }

  /** Reading never lengthens, and a string as long as its text was written without escapes. */
  lemma {:induction false} ScanTight(w: Text)
    requires ScanString(w).Some?
    ensures |ScanString(w).value.0| + |ScanString(w).value.1| + 1 == |w| ==>
      Clean(ScanString(w).value.0)
    decreases |w|
  {
    if w[0] != QUOTE && w[0] != BACKSLASH {
      ScanTight(w[1..]);
    }
  }
}
