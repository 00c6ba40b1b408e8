/** What `json.loads` returns, and from which texts. */
module Parsing {
  import opened Texts
  import opened Json
  import opened Rename
  import Replace

  /** No surrogate stands in the text by itself, as in every text decoded from UTF-8. */
  ghost predicate NoSurrogates(w: Text) {
    forall i :: 0 <= i < |w| ==> !IsHigh(w[i]) && !IsLow(w[i])
  }

  lemma TailNoSurrogates(w: Text, n: nat)
    requires NoSurrogates(w) && n <= |w|
    ensures NoSurrogates(w[n..])
  {
  }

  lemma {:induction false} SkipNoSurrogates(w: Text)
    requires NoSurrogates(w)
    ensures NoSurrogates(SkipSpace(w))
  {
    if w != [] && IsSpace(w[0]) {
      SkipNoSurrogates(w[1..]);
    }
  }

  // ---------- strings ----------

  /** Only an escape puts a low surrogate at the front of a string. */
  lemma LowFromEscape(w: Text)
    requires NoSurrogates(w) && ScanString(w).Some?
    ensures var s := ScanString(w).value.0;
      s != [] && IsLow(s[0]) ==> ReadUnicode(w).Some? && IsLow(ReadUnicode(w).value)
  {
  }

  lemma ConsNoSplit(c: Code, s: Text)
    requires Replace.NoSplitPair(s) && (s != [] ==> !(IsHigh(c) && IsLow(s[0])))
    ensures Replace.NoSplitPair([c] + s)
  {
  }

  lemma {:induction false} ScannedString(w: Text)
    requires NoSurrogates(w) && ScanString(w).Some?
    ensures Replace.NoSplitPair(ScanString(w).value.0) && NoSurrogates(ScanString(w).value.1)
    decreases |w|
  {
    if w[0] == QUOTE {
      TailNoSurrogates(w, 1);
    } else if w[0] == BACKSLASH {
      var (c, n) := ReadEscape(w).value;
      TailNoSurrogates(w, n);
      ScannedString(w[n..]);
      LowFromEscape(w[n..]);
      EscapeThenLow(w);
      ConsNoSplit(c, ScanString(w[n..]).value.0);
    } else {
      TailNoSurrogates(w, 1);
      ScannedString(w[1..]);
      ConsNoSplit(w[0], ScanString(w[1..]).value.0);
    }
  }

  /** A high surrogate that is read by itself is not followed by the escape of a low one. */
  lemma EscapeThenLow(w: Text)
    requires w != [] && w[0] == BACKSLASH && ReadEscape(w).Some?
    ensures var (c, n) := ReadEscape(w).value;
      IsHigh(c) && ReadUnicode(w[n..]).Some? ==> !IsLow(ReadUnicode(w[n..]).value)
  {
  }

  // ---------- numbers ----------

  lemma {:induction false} RunOfRun(w: Text)
    ensures NumberRun(NumberRun(w)) == NumberRun(w)
  {
    if w != [] && IsNumberChar(w[0]) {
      RunOfRun(w[1..]);
      assert NumberRun(w)[1..] == NumberRun(w[1..]);
    }
  }

  // ---------- values ----------

  ghost predicate AllMembersWellFormed(ms: seq<Member>) {
    forall i :: 0 <= i < |ms| ==> WellFormedMember(ms[i])
  }

  lemma {:induction false} PutWellFormed(d: seq<Member>, m: Member)
    requires AllMembersWellFormed(d) && WellFormedMember(m)
    ensures AllMembersWellFormed(Put(d, m.key, m.value))
  {
    if d != [] && d[0].key != m.key {
      assert forall i :: 0 <= i < |d[1..]| ==> d[1..][i] == d[i + 1];
      PutWellFormed(d[1..], m);
    }
  }

  lemma {:induction false} UpdateWellFormed(d: seq<Member>, e: seq<Member>)
    requires AllMembersWellFormed(d) && AllMembersWellFormed(e)
    ensures AllMembersWellFormed(Update(d, e))
    decreases |e|
  {
    if e != [] {
      PutWellFormed(d, e[0]);
      assert forall i :: 0 <= i < |e[1..]| ==> e[1..][i] == e[i + 1];
      UpdateWellFormed(Put(d, e[0].key, e[0].value), e[1..]);
    }
  }

  lemma {:induction false} ParsedValue(w: Text)
    requires NoSurrogates(w) && ParseValue(w).Some?
    ensures WellFormed(ParseValue(w).value.0) && NoSurrogates(ParseValue(w).value.1)
    decreases |w|, 1
  {
    TailNoSurrogates(w, 1);
    if w[0] == QUOTE {
      ScannedString(w[1..]);
    } else if w[0] == OPEN_BRACKET {
      SkipNoSurrogates(w[1..]);
      var v := SkipSpace(w[1..]);
      if v != [] && v[0] == CLOSE_BRACKET {
        TailNoSurrogates(v, 1);
      } else {
        ParsedElems(v);
      }
    } else if w[0] == OPEN_BRACE {
      SkipNoSurrogates(w[1..]);
      var v := SkipSpace(w[1..]);
      if v != [] && v[0] == CLOSE_BRACE {
        TailNoSurrogates(v, 1);
      } else {
        ParsedMembers(v);
        var pairs := ParseMembers(v).value.0;
        UpdateDistinct([], pairs);
        UpdateWellFormed([], pairs);
      }
    } else {
      ParsedWord(w);
    }
  }

  lemma ParsedWord(w: Text)
    requires NoSurrogates(w) && ParseValue(w).Some?
    requires w[0] != QUOTE && w[0] != OPEN_BRACKET && w[0] != OPEN_BRACE
    ensures WellFormed(ParseValue(w).value.0) && NoSurrogates(ParseValue(w).value.1)
  {
    RunOfRun(w);
    var (j, rest) := ParseValue(w).value;
    assert rest == w[|w| - |rest|..];
  }

  lemma {:induction false} ParsedElems(w: Text)
    requires NoSurrogates(w) && ParseElems(w).Some?
    ensures WellFormed(Arr(ParseElems(w).value.0)) && NoSurrogates(ParseElems(w).value.1)
    decreases |w|, 2
  {
    ParsedValue(w);
    var (j, rest) := ParseValue(w).value;
    SkipNoSurrogates(rest);
    var v := SkipSpace(rest);
    TailNoSurrogates(v, 1);
    if v[0] == COMMA {
      SkipNoSurrogates(v[1..]);
      ParsedElems(SkipSpace(v[1..]));
    }
  }

  lemma {:induction false} ParsedMembers(w: Text)
    requires NoSurrogates(w) && ParseMembers(w).Some?
    ensures AllMembersWellFormed(ParseMembers(w).value.0) && NoSurrogates(ParseMembers(w).value.1)
    decreases |w|, 2
  {
    ParsedMember(w);
    var (m, rest) := ParseMember(w).value;
    SkipNoSurrogates(rest);
    var v := SkipSpace(rest);
    TailNoSurrogates(v, 1);
    if v[0] == COMMA {
      SkipNoSurrogates(v[1..]);
      ParsedMembers(SkipSpace(v[1..]));
    }
  }

  lemma {:induction false} ParsedMember(w: Text)
    requires NoSurrogates(w) && ParseMember(w).Some?
    ensures WellFormedMember(ParseMember(w).value.0) && NoSurrogates(ParseMember(w).value.1)
    decreases |w|, 0
  {
    TailNoSurrogates(w, 1);
    ScannedString(w[1..]);
    var (key, rest) := ScanString(w[1..]).value;
    SkipNoSurrogates(rest);
    var v := SkipSpace(rest);
    TailNoSurrogates(v, 1);
    SkipNoSurrogates(v[1..]);
    ParsedValue(SkipSpace(v[1..]));
  }

  // ---------- what is printed ----------

  lemma {:induction false} EscapeNoSurrogates(s: Text)
    ensures NoSurrogates(Escape(s))
  {
    if s != [] {
      EscapeNoSurrogates(s[1..]);
      EscapeCharNoSurrogates(s[0]);
    }
  }

  /** From space to tilde all characters but the quote and the backslash are printed as they are. */
  lemma PrintedAsItself(c: Code)
    ensures EscapeChar(c) == [c] <==> ' ' as int <= c <= '~' as int && c != '\"' as int && c != '\\' as int
  {
  }

  lemma EscapeCharNoSurrogates(c: Code)
    ensures NoSurrogates(EscapeChar(c))
  {
  }

  lemma {:induction false} DumpsNoSurrogates(j: Json)
    requires WellFormed(j)
    ensures NoSurrogates(Dumps(j))
    decreases j, 1
  {
    match j
    case Num(lexeme) => assert forall i :: 0 <= i < |lexeme| ==> IsNumberChar(NumberRun(lexeme)[i]);
    case Str(s) => EscapeNoSurrogates(s);
    case Arr(elems) => ElemsNoSurrogates(elems);
    case Obj(members) => MembersNoSurrogates(members);
    case _ => LiteralWords();
  }

  lemma {:induction false} ElemsNoSurrogates(elems: seq<Json>)
    requires forall i :: 0 <= i < |elems| ==> WellFormed(elems[i])
    ensures NoSurrogates(DumpsElems(elems))
    decreases elems, 0
  {
    if elems != [] {
      DumpsNoSurrogates(elems[0]);
      ElemsNoSurrogates(elems[1..]);
    }
  }

  lemma {:induction false} MembersNoSurrogates(members: seq<Member>)
    requires AllMembersWellFormed(members)
    ensures NoSurrogates(DumpsMembers(members))
    decreases members, 0
  {
    if members != [] {
      assert WellFormedMember(members[0]);
      EscapeNoSurrogates(members[0].key);
      DumpsNoSurrogates(members[0].value);
      MembersNoSurrogates(members[1..]);
    }
  }

  // ---------- results ----------

  /** The well-formed trees are exactly what `json.loads` returns for texts without lone surrogates. */
  lemma WellFormedExactly(j: Json)
    ensures WellFormed(j) <==> exists w :: NoSurrogates(w) && Loads(w) == Some(j)
  {
    if WellFormed(j) {
      DumpsNoSurrogates(j);
      LoadsDumps(j);
      assert NoSurrogates(Dumps(j)) && Loads(Dumps(j)) == Some(j);
    }
    if w :| NoSurrogates(w) && Loads(w) == Some(j) {
      SkipNoSurrogates(w);
      ParsedValue(SkipSpace(w));
    }
  }

  lemma {:induction false} SkipPadding(pad: Text, w: Text)
    requires forall i :: 0 <= i < |pad| ==> IsSpace(pad[i])
    ensures SkipSpace(pad + w) == SkipSpace(w)
  {
    if pad == [] {
      assert pad + w == w;
    } else {
      assert (pad + w)[1..] == pad[1..] + w;
      SkipPadding(pad[1..], w);
    }
  }

  /** White space may stand before and behind a printed dict, and nothing else behind it. */
  lemma LoadsFollowed(pad: Text, members: seq<Member>, rest: Text)
    requires WellFormed(Obj(members)) && forall i :: 0 <= i < |pad| ==> IsSpace(pad[i])
    ensures Loads(pad + (Dumps(Obj(members)) + rest)) == if SkipSpace(rest) == [] then Some(Obj(members)) else None
  {
    var w := Dumps(Obj(members)) + rest;
    SkipPadding(pad, w);
    ParseQualifiedObj(members, [], rest);
    QualifyByNothing(Dumps(Obj(members)));
    RenamedByNothing(Obj(members));
    assert w[0] == OPEN_BRACE && SkipSpace(w) == w;
  }
}
