/** The definition rename of the aggregator: a substitution on the printed text of a
    specification, proved to be the rename of its tree. */
module Rename {
  import opened Texts
  import opened Json
  import opened Replace

  const MARKER: Text := Lit("#/definitions/")
  const REF: Text := Lit("$ref")

  function Qualify(s: Text, api: Text): Text {
    assert |MARKER| == 14;
    Replaced(s, MARKER, MARKER + api)
  }

  /** What the code does to one specification: print, substitute, parse. */
  function RenameByText(j: Json, api: Text): Option<Json> {
    Loads(Qualify(Dumps(j), api))
  }

  /** The intended rename: in every string and every key of the tree. */
  function Renamed(j: Json, api: Text): Json
    decreases j, 1
  {
    match j
    case Str(s) => Str(Qualify(s, api))
    case Arr(elems) => Arr(RenamedElems(elems, api))
    case Obj(members) => Obj(RenamedMembers(members, api))
    case _ => j
  }

  function RenamedElems(elems: seq<Json>, api: Text): (r: seq<Json>)
    ensures |r| == |elems|
    ensures forall i :: 0 <= i < |r| ==> r[i] == Renamed(elems[i], api)
    decreases elems, 0
  {
    if elems == [] then [] else [Renamed(elems[0], api)] + RenamedElems(elems[1..], api)
  }

  function RenamedMembers(members: seq<Member>, api: Text): (r: seq<Member>)
    ensures |r| == |members|
    ensures forall i :: 0 <= i < |r| ==>
      r[i].key == Qualify(members[i].key, api) && r[i].value == Renamed(members[i].value, api)
    decreases members, 0
  {
    if members == [] then []
    else [Member(Qualify(members[0].key, api), Renamed(members[0].value, api))] + RenamedMembers(members[1..], api)
  }

  /** A tree `json.loads` can return: dict keys are distinct, numbers are JSON numbers and no
      string holds a surrogate pair as two code points. */
  ghost predicate WellFormed(j: Json) {
    match j
    case Num(lexeme) => IsNumber(lexeme) && NumberRun(lexeme) == lexeme
    case Str(s) => NoSplitPair(s)
    case Arr(elems) => forall i :: 0 <= i < |elems| ==> WellFormed(elems[i])
    case Obj(members) => DistinctKeys(members) && forall i :: 0 <= i < |members| ==> WellFormedMember(members[i])
    case _ => true
  }

  ghost predicate WellFormedMember(m: Member) {
    NoSplitPair(m.key) && WellFormed(m.value)
  }

  // ---------- the marker ----------

  lemma MarkerFacts()
    ensures |MARKER| == 14 && MARKER[0] == '#' as int
    ensures Anchored(MARKER) && Clean(MARKER)
    ensures forall c :: c in MARKER ==> c == '#' as int || c == '/' as int || 'a' as int <= c <= 'z' as int
  {
    assert MARKER == ['#' as int, '/' as int, 'd' as int, 'e' as int, 'f' as int, 'i' as int, 'n' as int,
                      'i' as int, 't' as int, 'i' as int, 'o' as int, 'n' as int, 's' as int, '/' as int];
  }

  lemma CleanConcat(a: Text, b: Text)
    requires Clean(a) && Clean(b)
    ensures Clean(a + b)
  {
  }

  /** The rename never makes two strings one, whatever the name. */
  lemma QualifyInjective(s: Text, t: Text, api: Text)
    requires Qualify(s, api) == Qualify(t, api)
    ensures s == t
  {
    MarkerFacts();
    ReplacedInjective(s, t, MARKER, MARKER + api);
  }

  lemma QualifyMarked(s: Text, api: Text)
    ensures Qualify(MARKER + s, api) == MARKER + api + Qualify(s, api)
  {
    MarkerFacts();
    assert (MARKER + s)[..|MARKER|] == MARKER;
    assert (MARKER + s)[|MARKER|..] == s;
  }

  /** A text in which the rename has nothing to do. */
  predicate Unmarked(t: Text) {
    !Contains(t, MARKER)
  }

  lemma UnmarkedTail(t: Text, n: nat)
    requires n <= |t| && Unmarked(t)
    ensures Unmarked(t[n..])
  {
    forall i | 0 <= i <= |t[n..]| ensures !(MARKER <= t[n..][i..]) {
      assert t[n..][i..] == t[n + i..];
    }
  }

  lemma {:induction false} QualifyUnmarked(t: Text, api: Text)
    requires Unmarked(t)
    ensures Qualify(t, api) == t
    decreases |t|
  {
    if t != [] {
      assert t[0..] == t;
      UnmarkedTail(t, 1);
      QualifyUnmarked(t[1..], api);
    }
  }

  /** A name makes every other text longer. */
  lemma {:induction false} QualifyLengthens(t: Text, api: Text)
    ensures |Qualify(t, api)| >= |t|
    ensures !Unmarked(t) ==> |Qualify(t, api)| >= |t| + |api|
    decreases |t|
  {
    MarkerFacts();
    if t != [] {
      if MARKER <= t {
        QualifyLengthens(t[|MARKER|..], api);
      } else {
        QualifyLengthens(t[1..], api);
        if !Unmarked(t) {
          var i :| 0 <= i <= |t| && MARKER <= t[i..];
          assert t[0..] == t && t[1..][i - 1..] == t[i..];
        }
      }
    }
  }

  lemma QualifyUnhashed(s: Text, api: Text)
    requires '#' as int !in s
    ensures Qualify(s, api) == s
  {
    MarkerFacts();
    ReplacedNothing(s, MARKER, MARKER + api);
  }

  // ---------- the substitution follows the printer ----------

  predicate Punctuation(c: Code) {
    c == QUOTE || c == COMMA || c == COLON || c == SPACE ||
    c == OPEN_BRACKET || c == CLOSE_BRACKET || c == OPEN_BRACE || c == CLOSE_BRACE
  }

  lemma QualifyWrapped(a: Code, body: Text, b: Code, api: Text)
    requires Punctuation(a) && Punctuation(b)
    ensures Qualify([a] + body + [b], api) == [a] + Qualify(body, api) + [b]
  {
    MarkerFacts();
    var sub := MARKER + api;
    assert [a] + body + [b] == [a] + (body + [b]);
    ReplacedSkips([a], body + [b], MARKER, sub);
    ReplacedConcat(body, [b], MARKER, sub);
    ReplacedNothing([b], MARKER, sub);
  }

  lemma QualifyJoined(x: Text, a: Code, y: Text, api: Text)
    requires Punctuation(a)
    ensures Qualify(x + [a, SPACE] + y, api) == Qualify(x, api) + [a, SPACE] + Qualify(y, api)
  {
    MarkerFacts();
    var sub := MARKER + api;
    assert x + [a, SPACE] + y == x + ([a, SPACE] + y);
    ReplacedConcat(x, [a, SPACE] + y, MARKER, sub);
    ReplacedSkips([a, SPACE], y, MARKER, sub);
    assert Qualify(x, api) + ([a, SPACE] + Qualify(y, api)) == Qualify(x, api) + [a, SPACE] + Qualify(y, api);
  }

  lemma QualifyLiteral(s: Text, api: Text, rest: Text)
    ensures Qualify(Quoted(Escape(s)), api) + rest == [QUOTE] + LiteralTail(s, MARKER, MARKER + api, rest)
  {
    MarkerFacts();
    QualifyWrapped(QUOTE, Escape(s), QUOTE, api);
    var b := Qualify(Escape(s), api);
    assert [QUOTE] + b + [QUOTE] + rest == [QUOTE] + (b + [QUOTE] + rest);
  }

  lemma ScanQualified(s: Text, api: Text, rest: Text)
    requires Clean(api) && NoSplitPair(s)
    ensures ScanString((Qualify(Quoted(Escape(s)), api) + rest)[1..]) == Some((Qualify(s, api), rest))
    ensures (Qualify(Quoted(Escape(s)), api) + rest)[0] == QUOTE
  {
    MarkerFacts();
    CleanConcat(MARKER, api);
    QualifyLiteral(s, api, rest);
    ScanReplaced(s, MARKER, MARKER + api, rest);
    var t := LiteralTail(s, MARKER, MARKER + api, rest);
    assert ([QUOTE] + t)[1..] == t;
  }

  /** Number characters: none of them is `#`, a bracket, a quote or white space. */
  lemma NumberFacts(lexeme: Text)
    requires IsNumber(lexeme) && NumberRun(lexeme) == lexeme
    ensures lexeme != [] && '#' as int !in lexeme
    ensures IsDigit(lexeme[0]) || lexeme[0] == '-' as int
  {
    assert forall i :: 0 <= i < |lexeme| ==> IsNumberChar(NumberRun(lexeme)[i]);
  }

  lemma {:induction false} NumberRunStops(a: Text, rest: Text)
    requires NumberRun(a) == a
    requires rest == [] || !IsNumberChar(rest[0])
    ensures NumberRun(a + rest) == a
  {
    if a == [] {
      assert a + rest == rest;
    } else {
      assert (a + rest)[0] == a[0] && (a + rest)[1..] == a[1..] + rest;
      assert a == [a[0]] + NumberRun(a[1..]);
      assert NumberRun(a[1..]) == a[1..];
      NumberRunStops(a[1..], rest);
    }
  }

  lemma LiteralWords()
    ensures Lit("null") == ['n' as int, 'u' as int, 'l' as int, 'l' as int]
    ensures Lit("true") == ['t' as int, 'r' as int, 'u' as int, 'e' as int]
    ensures Lit("false") == ['f' as int, 'a' as int, 'l' as int, 's' as int, 'e' as int]
  {
  }

  // ---------- the parser follows the substituted text ----------

  /** Where a value ends in printed text: at the end, before a comma or before a closing bracket. */
  predicate Follows(rest: Text) {
    rest == [] || rest[0] == COMMA || rest[0] == CLOSE_BRACKET || rest[0] == CLOSE_BRACE
  }

  /** The first character of a printed value or member. */
  predicate ValueHead(w: Text) {
    w != [] && !IsSpace(w[0]) && w[0] != CLOSE_BRACKET && w[0] != CLOSE_BRACE
  }

  lemma QualifiedHead(j: Json, api: Text)
    requires WellFormed(j)
    ensures ValueHead(Qualify(Dumps(j), api))
  {
    LiteralWords();
    match j
    case Null => QualifyUnhashed(Dumps(j), api);
    case Bool(_) => QualifyUnhashed(Dumps(j), api);
    case Num(lexeme) => NumberFacts(lexeme); QualifyUnhashed(lexeme, api);
    case Str(s) => QualifyWrapped(QUOTE, Escape(s), QUOTE, api);
    case Arr(elems) => QualifyWrapped(OPEN_BRACKET, DumpsElems(elems), CLOSE_BRACKET, api);
    case Obj(members) => QualifyWrapped(OPEN_BRACE, DumpsMembers(members), CLOSE_BRACE, api);
  }

  lemma ParseWord(j: Json, api: Text, rest: Text)
    requires j.Null? || j.Bool?
    ensures ParseValue(Qualify(Dumps(j), api) + rest) == Some((j, rest))
  {
    LiteralWords();
    QualifyUnhashed(Dumps(j), api);
    var w := Dumps(j) + rest;
    assert w[..|Dumps(j)|] == Dumps(j) && w[|Dumps(j)|..] == rest;
    assert w[0] == Dumps(j)[0];
  }

  lemma NotAWord(w: Text)
    requires w != [] && (IsDigit(w[0]) || w[0] == '-' as int)
    ensures !(Lit("null") <= w) && !(Lit("true") <= w) && !(Lit("false") <= w)
  {
    assert Lit("null")[0] == 'n' as int && Lit("true")[0] == 't' as int && Lit("false")[0] == 'f' as int;
  }

  lemma ParseNumber(lexeme: Text, api: Text, rest: Text)
    requires WellFormed(Num(lexeme)) && Follows(rest)
    ensures ParseValue(Qualify(Dumps(Num(lexeme)), api) + rest) == Some((Num(lexeme), rest))
  {
    NumberFacts(lexeme);
    QualifyUnhashed(lexeme, api);
    NumberRunStops(lexeme, rest);
    var w := lexeme + rest;
    assert w[0] == lexeme[0] && w[|lexeme|..] == rest;
    NotAWord(w);
  }

  lemma SkipNothing(w: Text)
    requires ValueHead(w)
    ensures SkipSpace(w) == w && SkipSpace([SPACE] + w) == w
  {
    assert ([SPACE] + w)[1..] == w;
  }

  lemma ParseArr(u: Text, elems: seq<Json>, rest: Text)
    requires ValueHead(u) && ParseElems(u) == Some((elems, rest))
    ensures ParseValue([OPEN_BRACKET] + u) == Some((Arr(elems), rest))
  {
    assert ([OPEN_BRACKET] + u)[1..] == u;
  }

  lemma ParseObj(u: Text, members: seq<Member>, rest: Text)
    requires ValueHead(u) && ParseMembers(u) == Some((members, rest)) && DistinctKeys(members)
    ensures ParseValue([OPEN_BRACE] + u) == Some((Obj(members), rest))
  {
    assert ([OPEN_BRACE] + u)[1..] == u;
    UpdateNothing(members);
  }

  lemma UpdateNothing(members: seq<Member>)
    requires DistinctKeys(members)
    ensures Update([], members) == members
  {
    assert [] + members == members;
    UpdateFresh([], members);
  }

  lemma ParseEmpty(rest: Text)
    ensures ParseValue([OPEN_BRACKET, CLOSE_BRACKET] + rest) == Some((Arr([]), rest))
    ensures ParseValue([OPEN_BRACE, CLOSE_BRACE] + rest) == Some((Obj([]), rest))
  {
    var a, o := [OPEN_BRACKET, CLOSE_BRACKET] + rest, [OPEN_BRACE, CLOSE_BRACE] + rest;
    assert a[1..] == [CLOSE_BRACKET] + rest && a[1..][1..] == rest;
    assert o[1..] == [CLOSE_BRACE] + rest && o[1..][1..] == rest;
  }

  lemma ParseLastElem(u: Text, j: Json, rest: Text)
    requires ParseValue(u) == Some((j, [CLOSE_BRACKET] + rest))
    ensures ParseElems(u) == Some(([j], rest))
  {
    var after := [CLOSE_BRACKET] + rest;
    assert SkipSpace(after) == after && after[1..] == rest;
  }

  lemma AfterComma(tail: Text)
    requires ValueHead(tail)
    ensures SkipSpace([COMMA, SPACE] + tail) == [COMMA, SPACE] + tail
    ensures SkipSpace(([COMMA, SPACE] + tail)[1..]) == tail
  {
    assert ([COMMA, SPACE] + tail)[1..] == [SPACE] + tail;
    SkipNothing(tail);
  }

  lemma ParseConsElem(u: Text, j: Json, tail: Text, js: seq<Json>, rest: Text)
    requires ParseValue(u) == Some((j, [COMMA, SPACE] + tail))
    requires ValueHead(tail) && ParseElems(tail) == Some((js, rest))
    ensures ParseElems(u) == Some(([j] + js, rest))
  {
    AfterComma(tail);
  }

  lemma ParseLastMember(u: Text, m: Member, rest: Text)
    requires ParseMember(u) == Some((m, [CLOSE_BRACE] + rest))
    ensures ParseMembers(u) == Some(([m], rest))
  {
    var after := [CLOSE_BRACE] + rest;
    assert SkipSpace(after) == after && after[1..] == rest;
  }

  lemma ParseConsMember(u: Text, m: Member, tail: Text, ms: seq<Member>, rest: Text)
    requires ParseMember(u) == Some((m, [COMMA, SPACE] + tail))
    requires ValueHead(tail) && ParseMembers(tail) == Some((ms, rest))
    ensures ParseMembers(u) == Some(([m] + ms, rest))
  {
    AfterComma(tail);
  }

  lemma ParsePair(w: Text, key: Text, u: Text, value: Json, rest: Text)
    requires w != [] && w[0] == QUOTE && ScanString(w[1..]) == Some((key, [COLON, SPACE] + u))
    requires ValueHead(u) && ParseValue(u) == Some((value, rest))
    ensures ParseMember(w) == Some((Member(key, value), rest))
  {
    var after := [COLON, SPACE] + u;
    assert SkipSpace(after) == after && after[1..] == [SPACE] + u;
    SkipNothing(u);
  }

  /** Text with a closing character and a rest behind it, split after its head. */
  lemma Regroup(a: Text, b: Text, close: Code, rest: Text)
    ensures (a + [COMMA, SPACE] + b) + [close] + rest == a + ([COMMA, SPACE] + (b + [close] + rest))
    ensures a + [close] + rest == a + ([close] + rest)
  {
  }

  lemma RegroupWrapped(open: Code, a: Text, close: Code, rest: Text)
    ensures ([open] + a + [close]) + rest == [open] + (a + [close] + rest)
  {
  }

  lemma HeadOfConcat(a: Text, b: Text)
    requires ValueHead(a)
    ensures ValueHead(a + b)
  {
  }

  lemma ParseString(s: Text, api: Text, rest: Text)
    requires Clean(api) && NoSplitPair(s)
    ensures ParseValue(Qualify(Quoted(Escape(s)), api) + rest) == Some((Str(Qualify(s, api)), rest))
  {
    MarkerFacts();
    CleanConcat(MARKER, api);
    QualifyLiteral(s, api, rest);
    ScanReplaced(s, MARKER, MARKER + api, rest);
    ParseQuoted(LiteralTail(s, MARKER, MARKER + api, rest), Qualify(s, api), rest);
  }

  lemma ParseQuoted(t: Text, s: Text, rest: Text)
    requires ScanString(t) == Some((s, rest))
    ensures ParseValue([QUOTE] + t) == Some((Str(s), rest))
  {
    assert ([QUOTE] + t)[1..] == t;
  }

  lemma {:induction false} ParseQualified(j: Json, api: Text, rest: Text)
    requires Clean(api) && WellFormed(j) && Follows(rest)
    ensures ParseValue(Qualify(Dumps(j), api) + rest) == Some((Renamed(j, api), rest))
    decreases j, 1
  {
    match j
    case Null => ParseWord(j, api, rest);
    case Bool(_) => ParseWord(j, api, rest);
    case Num(lexeme) => ParseNumber(lexeme, api, rest);
    case Str(s) => ParseString(s, api, rest);
    case Arr(elems) => ParseQualifiedArr(elems, api, rest);
    case Obj(members) => ParseQualifiedObj(members, api, rest);
  }

  lemma {:induction false} ParseQualifiedArr(elems: seq<Json>, api: Text, rest: Text)
    requires Clean(api)
    requires forall i :: 0 <= i < |elems| ==> WellFormed(elems[i])
    ensures ParseValue(Qualify(Dumps(Arr(elems)), api) + rest) == Some((Arr(RenamedElems(elems, api)), rest))
    decreases elems, 1
  {
    var body := Qualify(DumpsElems(elems), api);
    QualifyWrapped(OPEN_BRACKET, DumpsElems(elems), CLOSE_BRACKET, api);
    var w := Qualify(Dumps(Arr(elems)), api) + rest;
    if elems == [] {
      QualifyUnhashed([], api);
      assert w == [OPEN_BRACKET, CLOSE_BRACKET] + rest;
      ParseEmpty(rest);
    } else {
      ParseQualifiedElems(elems, api, rest);
      RegroupWrapped(OPEN_BRACKET, body, CLOSE_BRACKET, rest);
      ParseArr(body + [CLOSE_BRACKET] + rest, RenamedElems(elems, api), rest);
    }
  }

  lemma {:induction false} ParseQualifiedObj(members: seq<Member>, api: Text, rest: Text)
    requires Clean(api) && DistinctKeys(members)
    requires forall i :: 0 <= i < |members| ==> WellFormedMember(members[i])
    ensures ParseValue(Qualify(Dumps(Obj(members)), api) + rest) == Some((Obj(RenamedMembers(members, api)), rest))
    decreases members, 1
  {
    var body := Qualify(DumpsMembers(members), api);
    QualifyWrapped(OPEN_BRACE, DumpsMembers(members), CLOSE_BRACE, api);
    var w := Qualify(Dumps(Obj(members)), api) + rest;
    if members == [] {
      QualifyUnhashed([], api);
      assert w == [OPEN_BRACE, CLOSE_BRACE] + rest;
      ParseEmpty(rest);
    } else {
      ParseQualifiedMembers(members, api, rest);
      RenamedDistinct(members, api);
      RegroupWrapped(OPEN_BRACE, body, CLOSE_BRACE, rest);
      ParseObj(body + [CLOSE_BRACE] + rest, RenamedMembers(members, api), rest);
    }
  }

  lemma {:induction false} ParseQualifiedElems(elems: seq<Json>, api: Text, rest: Text)
    requires Clean(api) && elems != []
    requires forall i :: 0 <= i < |elems| ==> WellFormed(elems[i])
    ensures ParseElems(Qualify(DumpsElems(elems), api) + [CLOSE_BRACKET] + rest)
         == Some((RenamedElems(elems, api), rest))
    ensures ValueHead(Qualify(DumpsElems(elems), api) + [CLOSE_BRACKET] + rest)
    decreases elems, 0
  {
    var q, r := Qualify(Dumps(elems[0]), api), Renamed(elems[0], api);
    var w := Qualify(DumpsElems(elems), api) + [CLOSE_BRACKET] + rest;
    QualifiedHead(elems[0], api);
    if |elems| == 1 {
      var after := [CLOSE_BRACKET] + rest;
      Regroup(q, [], CLOSE_BRACKET, rest);
      ParseQualified(elems[0], api, after);
      ParseLastElem(w, r, rest);
      assert RenamedElems(elems, api) == [r];
      HeadOfConcat(q, after);
    } else {
      ParseQualifiedElems(elems[1..], api, rest);
      QualifyJoined(Dumps(elems[0]), COMMA, DumpsElems(elems[1..]), api);
      var tail := Qualify(DumpsElems(elems[1..]), api) + [CLOSE_BRACKET] + rest;
      var after := [COMMA, SPACE] + tail;
      Regroup(q, Qualify(DumpsElems(elems[1..]), api), CLOSE_BRACKET, rest);
      ParseQualified(elems[0], api, after);
      ParseConsElem(w, r, tail, RenamedElems(elems[1..], api), rest);
      HeadOfConcat(q, after);
    }
  }

  lemma {:induction false} ParseQualifiedMembers(members: seq<Member>, api: Text, rest: Text)
    requires Clean(api) && members != []
    requires forall i :: 0 <= i < |members| ==> WellFormedMember(members[i])
    ensures ParseMembers(Qualify(DumpsMembers(members), api) + [CLOSE_BRACE] + rest)
         == Some((RenamedMembers(members, api), rest))
    ensures ValueHead(Qualify(DumpsMembers(members), api) + [CLOSE_BRACE] + rest)
    decreases members, 0
  {
    var q := Qualify(DumpsMember(members[0]), api);
    var r := Member(Qualify(members[0].key, api), Renamed(members[0].value, api));
    var w := Qualify(DumpsMembers(members), api) + [CLOSE_BRACE] + rest;
    if |members| == 1 {
      var after := [CLOSE_BRACE] + rest;
      Regroup(q, [], CLOSE_BRACE, rest);
      ParseQualifiedMember(members[0], api, after);
      ParseLastMember(w, r, rest);
      assert RenamedMembers(members, api) == [r];
    } else {
      ParseQualifiedMembers(members[1..], api, rest);
      QualifyJoined(DumpsMember(members[0]), COMMA, DumpsMembers(members[1..]), api);
      var tail := Qualify(DumpsMembers(members[1..]), api) + [CLOSE_BRACE] + rest;
      var after := [COMMA, SPACE] + tail;
      Regroup(q, Qualify(DumpsMembers(members[1..]), api), CLOSE_BRACE, rest);
      ParseQualifiedMember(members[0], api, after);
      ParseConsMember(w, r, tail, RenamedMembers(members[1..], api), rest);
    }
  }

  lemma {:induction false} ParseQualifiedMember(m: Member, api: Text, rest: Text)
    requires Clean(api) && WellFormedMember(m) && Follows(rest)
    ensures ParseMember(Qualify(DumpsMember(m), api) + rest)
         == Some((Member(Qualify(m.key, api), Renamed(m.value, api)), rest))
    ensures ValueHead(Qualify(DumpsMember(m), api) + rest)
    decreases m, 2
  {
    var k, v := Qualify(Quoted(Escape(m.key)), api), Qualify(Dumps(m.value), api);
    QualifyJoined(Quoted(Escape(m.key)), COLON, Dumps(m.value), api);
    var after := [COLON, SPACE] + (v + rest);
    var w := Qualify(DumpsMember(m), api) + rest;
    assert w == k + after;
    ScanQualified(m.key, api, after);
    QualifiedHead(m.value, api);
    HeadOfConcat(v, rest);
    ParseQualified(m.value, api, rest);
    ParsePair(w, Qualify(m.key, api), v + rest, Renamed(m.value, api), rest);
  }

  lemma RenamedDistinct(members: seq<Member>, api: Text)
    requires DistinctKeys(members)
    ensures DistinctKeys(RenamedMembers(members, api))
  {
    var r := RenamedMembers(members, api);
    forall i, j | 0 <= i < j < |r| ensures r[i].key != r[j].key {
      if r[i].key == r[j].key {
        QualifyInjective(members[i].key, members[j].key, api);
      }
    }
  }

  // ---------- results ----------

  /** The text substitution is the tree rename: no reference or key is damaged, none is missed
      and no two keys of an object become one. */
  lemma TextRenameIsTreeRename(j: Json, api: Text)
    requires Clean(api) && WellFormed(j)
    ensures RenameByText(j, api) == Some(Renamed(j, api))
  {
    var w := Qualify(Dumps(j), api);
    ParseQualified(j, api, []);
    assert w + [] == w;
    QualifiedHead(j, api);
  }

  /** A tree that some name leaves as it is, every name does. */
  lemma {:induction false} RenamedFixed(j: Json, api: Text, other: Text)
    requires api != [] && Renamed(j, api) == j
    ensures Renamed(j, other) == j
  {
    match j
    case Str(s) =>
      FixedText(s, api, other);
    case Arr(elems) =>
      forall i | 0 <= i < |elems| ensures RenamedElems(elems, other)[i] == elems[i] {
        assert RenamedElems(elems, api)[i] == elems[i];
        RenamedFixed(elems[i], api, other);
      }
      assert RenamedElems(elems, other) == elems;
    case Obj(members) =>
      forall i | 0 <= i < |members| ensures RenamedMembers(members, other)[i] == members[i] {
        assert RenamedMembers(members, api)[i] == members[i];
        FixedText(members[i].key, api, other);
        RenamedFixed(members[i].value, api, other);
      }
      assert RenamedMembers(members, other) == members;
    case _ =>
  }

  lemma FixedText(s: Text, api: Text, other: Text)
    requires api != [] && Qualify(s, api) == s
    ensures Qualify(s, other) == s
  {
    QualifyLengthens(s, api);
    QualifyUnmarked(s, other);
  }

  /** And where the printed text has no marker, any name will do. */
  lemma UnmarkedTextRename(j: Json, api: Text)
    requires WellFormed(j) && Unmarked(Dumps(j))
    ensures RenameByText(j, api) == Some(Renamed(j, api))
  {
    var letter: Text := ['a' as int];
    TextRenameIsTreeRename(j, letter);
    QualifyUnmarked(Dumps(j), letter);
    QualifyUnmarked(Dumps(j), api);
    LoadsDumps(j);
    RenamedFixed(j, letter, api);
  }

  lemma PrintedMarker(api: Text)
    ensures Qualify(Dumps(Str(MARKER)), api) == [QUOTE] + (MARKER + api) + [QUOTE]
    ensures Qualify(MARKER, api) == MARKER + api
  {
    MarkerFacts();
    assert MARKER + [] == MARKER;
    QualifyMarked([], api);
    QualifyUnhashed([], api);
    assert MARKER + api + [] == MARKER + api;
    EscapeHead(MARKER, MARKER);
    assert MARKER[|MARKER|..] == [];
    assert Escape(MARKER) == MARKER + [] == MARKER;
    QualifyWrapped(QUOTE, MARKER, QUOTE, api);
  }

  /** The smallest specification with a reference. */
  function ReferenceTo(t: Text): Json {
    Obj([Member(REF, Str(t))])
  }

  /** Its text, when the reference needs no escape. */
  function ReferenceText(t: Text): Text {
    [OPEN_BRACE] + (Quoted(REF) + [COLON, SPACE] + ([QUOTE] + t + [QUOTE])) + [CLOSE_BRACE]
  }

  lemma RefFacts()
    ensures REF == ['$' as int, 'r' as int, 'e' as int, 'f' as int] && Clean(REF) && '#' as int !in REF
    ensures Escape(REF) == REF
  {
    assert REF == ['$' as int, 'r' as int, 'e' as int, 'f' as int];
    EscapeHead(REF, REF);
    assert REF[|REF|..] == [] && Escape([]) == [];
    assert REF + [] == REF;
  }

  lemma PrintedReference(api: Text)
    ensures Qualify(Dumps(ReferenceTo(MARKER)), api) == ReferenceText(MARKER + api)
  {
    var m := Member(REF, Str(MARKER));
    PrintedMember(api);
    QualifyWrapped(OPEN_BRACE, DumpsMember(m), CLOSE_BRACE, api);
    assert DumpsMembers([m]) == DumpsMember(m);
  }

  lemma PrintedMember(api: Text)
    ensures Qualify(DumpsMember(Member(REF, Str(MARKER))), api)
         == Quoted(REF) + [COLON, SPACE] + ([QUOTE] + (MARKER + api) + [QUOTE])
  {
    RefFacts();
    PrintedMarker(api);
    QualifyJoined(Quoted(REF), COLON, Dumps(Str(MARKER)), api);
    QuotedUnhashed(REF);
    QualifyUnhashed(Quoted(REF), api);
  }

  lemma QuotedUnhashed(t: Text)
    requires '#' as int !in t
    ensures '#' as int !in Quoted(t)
  {
  }

  lemma RenamedReference(api: Text)
    ensures Renamed(ReferenceTo(MARKER), api) == ReferenceTo(MARKER + api)
  {
    RefFacts();
    PrintedMarker(api);
    QualifyUnhashed(REF, api);
    assert RenamedMembers([Member(REF, Str(MARKER))], api) == [Member(REF, Str(MARKER + api))];
  }

  /** Every string among the parsed members is well inside the text. */
  lemma {:induction false} MemberStringsInside(w: Text)
    requires ParseMembers(w).Some?
    ensures forall i :: 0 <= i < |ParseMembers(w).value.0| && ParseMembers(w).value.0[i].value.Str? ==>
      |ParseMembers(w).value.0[i].value.s| + 6 <= |w|
    decreases |w|
  {
    var (m, rest) := ParseMember(w).value;
    MemberStringInside(w);
    var v := SkipSpace(rest);
    if v[0] == COMMA {
      MemberStringsInside(SkipSpace(v[1..]));
    }
  }

  lemma MemberStringInside(w: Text)
    requires ParseMember(w).Some?
    ensures var (m, rest) := ParseMember(w).value; m.value.Str? ==> |m.value.s| + |rest| + 5 <= |w|
  {
    var (key, after) := ScanString(w[1..]).value;
    var v := SkipSpace(after);
    var u := SkipSpace(v[1..]);
    assert |u| + 3 <= |w|;
    var (value, rest) := ParseValue(u).value;
    assert ParseMember(w) == Some((Member(key, value), rest));
    if value.Str? {
      StringInside(u);
    }
  }

  lemma StringInside(w: Text)
    requires ParseValue(w).Some? && ParseValue(w).value.0.Str?
    ensures w[0] == QUOTE && |ParseValue(w).value.0.s| + |ParseValue(w).value.1| + 2 <= |w|
  {
  }

  /** An updated dict holds nothing that was in neither of the two. */
  lemma {:induction false} UpdateValues(d: seq<Member>, e: seq<Member>, k: Text)
    requires Get(Update(d, e), k).Some?
    ensures Get(Update(d, e), k) == Get(d, k) ||
      exists i :: 0 <= i < |e| && Some(e[i].value) == Get(Update(d, e), k)
    decreases |e|
  {
    if e != [] {
      UpdateValues(Put(d, e[0].key, e[0].value), e[1..], k);
      if i :| 0 <= i < |e[1..]| && Some(e[1..][i].value) == Get(Update(d, e), k) {
        assert e[i + 1] == e[1..][i];
      } else if e[0].key == k {
        assert Some(e[0].value) == Get(Update(d, e), k);
      }
    }
  }

  lemma ScanKey(key: Text, tail: Text)
    requires Clean(key)
    ensures ScanString(key + ([QUOTE] + tail)) == Some((key, tail))
  {
    assert ([QUOTE] + tail)[1..] == tail;
    ScanPlain(key, [QUOTE] + tail);
    assert key + [] == key;
  }

  lemma ParseAfterKey(x: Text)
    ensures var tail, r := [COLON, SPACE] + ([QUOTE] + x), ScanString(x);
      SkipSpace(tail) == tail && tail[0] == COLON &&
      ParseValue(SkipSpace(tail[1..])) == if r.None? then None else Some((Str(r.value.0), r.value.1))
  {
    var u := [QUOTE] + x;
    var tail := [COLON, SPACE] + u;
    assert tail[1..] == [SPACE] + u && u[1..] == x;
    SkipNothing(u);
  }

  /** A member whose value is a literal. */
  lemma ParseLiteralMember(key: Text, x: Text)
    requires Clean(key)
    ensures var r := ScanString(x);
      ParseMember([QUOTE] + (key + ([QUOTE] + ([COLON, SPACE] + ([QUOTE] + x))))) ==
      if r.None? then None else Some((Member(key, Str(r.value.0)), r.value.1))
  {
    var tail := [COLON, SPACE] + ([QUOTE] + x);
    var v := [QUOTE] + (key + ([QUOTE] + tail));
    assert v[1..] == key + ([QUOTE] + tail);
    ScanKey(key, tail);
    ParseAfterKey(x);
  }

  lemma ParseObject(v: Text)
    requires v != [] && v[0] == QUOTE
    ensures var r := ParseMembers(v);
      ParseValue([OPEN_BRACE] + v) == if r.None? then None else Some((Obj(Update([], r.value.0)), r.value.1))
  {
    assert ([OPEN_BRACE] + v)[1..] == v;
  }

  /** The first member of the reference's text. */
  lemma ReferenceFirstMember(t: Text)
    ensures var members := ParseMembers(ReferenceText(t)[1..]);
      ParseValue(ReferenceText(t)) ==
      if members.None? then None else Some((Obj(Update([], members.value.0)), members.value.1))
    ensures var literal := ScanString(t + [QUOTE, CLOSE_BRACE]);
      ParseMember(ReferenceText(t)[1..]) ==
      if literal.None? then None else Some((Member(REF, Str(literal.value.0)), literal.value.1))
  {
    RefFacts();
    var x := t + [QUOTE, CLOSE_BRACE];
    RegroupReference(REF, t);
    ParseLiteralMember(REF, x);
    ParseObject([QUOTE] + (REF + ([QUOTE] + ([COLON, SPACE] + ([QUOTE] + x)))));
  }

  lemma RegroupReference(key: Text, t: Text)
    ensures var v := [QUOTE] + (key + ([QUOTE] + ([COLON, SPACE] + ([QUOTE] + (t + [QUOTE, CLOSE_BRACE])))));
      var w := [OPEN_BRACE] + (Quoted(key) + [COLON, SPACE] + ([QUOTE] + t + [QUOTE])) + [CLOSE_BRACE];
      w == [OPEN_BRACE] + v && w[1..] == v
  {
  }

  /** Only a text that needs no escape comes back from between the quotes. */
  lemma ReferenceLoads(t: Text)
    requires Loads(ReferenceText(t)) == Some(ReferenceTo(t))
    ensures Clean(t)
  {
    var v, x := ReferenceText(t)[1..], t + [QUOTE, CLOSE_BRACE];
    assert SkipSpace(ReferenceText(t)) == ReferenceText(t);
    ReferenceFirstMember(t);
    var (ms, end) := ParseMembers(v).value;
    assert Get(ReferenceTo(t).members, REF) == Some(Str(t));
    UpdateValues([], ms, REF);
    var i :| 0 <= i < |ms| && ms[i].value == Str(t);
    var (s, rest) := ScanString(x).value;
    FirstOrLater(v, s, rest, i, t);
    ScanTight(x);
  }

  lemma FirstOrLater(v: Text, s: Text, rest: Text, i: nat, t: Text)
    requires ParseMembers(v).Some? && ParseMember(v) == Some((Member(REF, Str(s)), rest))
    requires i < |ParseMembers(v).value.0| && ParseMembers(v).value.0[i].value == Str(t)
    requires |s| + |rest| < |t| + 2
    ensures s == t && |rest| == 1
  {
    var w := SkipSpace(rest);
    if w[0] == COMMA {
      MemberStringsInside(SkipSpace(w[1..]));
    }
  }

  /** A name with a quote, a backslash or a control character already fails on the smallest
      specification with a reference to a definition. */
  lemma UncleanNameFails(api: Text)
    requires !Clean(api)
    ensures WellFormed(ReferenceTo(MARKER))
    ensures RenameByText(ReferenceTo(MARKER), api) != Some(Renamed(ReferenceTo(MARKER), api))
  {
    PrintedReference(api);
    RenamedReference(api);
    ReferenceWellFormed();
    if RenameByText(ReferenceTo(MARKER), api) == Some(ReferenceTo(MARKER + api)) {
      ReferenceLoads(MARKER + api);
      assert forall i :: 0 <= i < |api| ==> api[i] == (MARKER + api)[|MARKER| + i];
    }
  }

  lemma ReferenceWellFormed()
    ensures WellFormed(ReferenceTo(MARKER))
  {
    MarkerFacts();
    RefFacts();
    assert NoSplitPair(MARKER) by {
      assert forall i :: 0 <= i < |MARKER| ==> Unescaped(MARKER[i]);
    }
    assert WellFormedMember(Member(REF, Str(MARKER)));
  }

  /** Exactly the API names without quote, backslash and control characters are safe. */
  lemma TextRenameExactly(api: Text)
    ensures Clean(api) <==> forall j :: WellFormed(j) ==> RenameByText(j, api) == Some(Renamed(j, api))
  {
    if Clean(api) {
      forall j | WellFormed(j) ensures RenameByText(j, api) == Some(Renamed(j, api)) {
        TextRenameIsTreeRename(j, api);
      }
    } else {
      UncleanNameFails(api);
    }
  }

  // ---------- the printer and parser themselves ----------

  lemma {:induction false} ReplacedBySelf(s: Text, pat: Text)
    requires pat != []
    ensures Replaced(s, pat, pat) == s
    decreases |s|
  {
    if s != [] {
      if pat <= s {
        ReplacedBySelf(s[|pat|..], pat);
        assert s == pat + s[|pat|..];
      } else {
        ReplacedBySelf(s[1..], pat);
        assert s == [s[0]] + s[1..];
      }
    }
  }

  lemma QualifyByNothing(s: Text)
    ensures Qualify(s, []) == s
  {
    MarkerFacts();
    assert MARKER + [] == MARKER;
    ReplacedBySelf(s, MARKER);
  }

  lemma {:induction false} RenamedByNothing(j: Json)
    ensures Renamed(j, []) == j
  {
    match j
    case Str(s) => QualifyByNothing(s);
    case Arr(elems) =>
      forall i | 0 <= i < |elems| ensures Renamed(elems[i], []) == elems[i] {
        RenamedByNothing(elems[i]);
      }
      assert RenamedElems(elems, []) == elems;
    case Obj(members) =>
      forall i | 0 <= i < |members| ensures RenamedMembers(members, [])[i] == members[i] {
        QualifyByNothing(members[i].key);
        RenamedByNothing(members[i].value);
      }
      assert RenamedMembers(members, []) == members;
    case _ =>
  }

  lemma LoadsDumps(j: Json)
    requires WellFormed(j)
    ensures Loads(Dumps(j)) == Some(j)
  {
    TextRenameIsTreeRename(j, []);
    QualifyByNothing(Dumps(j));
    RenamedByNothing(j);
  }

  /** What reading does to the surrogate pairs that stand as two code points. */
  function JoinPairs(s: Text): (r: Text)
    ensures |r| <= |s|
    ensures NoSplitPair(s) ==> r == s
  {
    if s == [] then []
    else if |s| > 1 && IsHigh(s[0]) && IsLow(s[1]) then
      [Joined(s[0], s[1])] + JoinPairs(s[2..])
    else
      assert NoSplitPair(s) ==> NoSplitPair(s[1..]) by {
        assert forall i :: 0 <= i < |s| - 1 ==> s[1..][i] == s[i + 1];
      }
      [s[0]] + JoinPairs(s[1..])
  }

  lemma {:induction false} JoinPairsShortens(s: Text)
    requires !NoSplitPair(s)
    ensures |JoinPairs(s)| < |s|
  {
    if !(IsHigh(s[0]) && IsLow(s[1])) {
      var i :| 0 <= i < |s| - 1 && IsHigh(s[i]) && IsLow(s[i + 1]);
      assert s[1..][i - 1] == s[i] && s[1..][i] == s[i + 1];
      JoinPairsShortens(s[1..]);
    }
  }

  function EscapedTail(s: Text, rest: Text): Text { Escape(s) + [QUOTE] + rest }

  lemma EscapedTailStep(s: Text, rest: Text)
    requires s != []
    ensures EscapedTail(s, rest) == EscapeChar(s[0]) + EscapedTail(s[1..], rest)
  {
    assert EscapeChar(s[0]) + Escape(s[1..]) + [QUOTE] + rest == EscapeChar(s[0]) + (Escape(s[1..]) + [QUOTE] + rest);
  }

  function Joined(hi: Code, lo: Code): Code
    requires IsHigh(hi) && IsLow(lo)
  {
    0x1_0000 + (hi - 0xD800) * 0x400 + (lo - 0xDC00)
  }

  lemma ScanPair(hi: Code, lo: Code, tail: Text)
    requires IsHigh(hi) && IsLow(lo) && ScanString(tail).Some?
    ensures ScanString(UnicodeEscape(hi) + (UnicodeEscape(lo) + tail))
         == Some(([Joined(hi, lo)] + ScanString(tail).value.0, ScanString(tail).value.1))
  {
    var w := UnicodeEscape(hi) + (UnicodeEscape(lo) + tail);
    ReadPair(hi, lo, tail);
    assert w[0] == BACKSLASH && w[12..] == tail;
  }

  lemma ReadPair(hi: Code, lo: Code, tail: Text)
    requires IsHigh(hi) && IsLow(lo)
    ensures ReadEscape(UnicodeEscape(hi) + (UnicodeEscape(lo) + tail)) == Some((Joined(hi, lo), 12))
  {
    var w := UnicodeEscape(hi) + (UnicodeEscape(lo) + tail);
    ReadUnicodeEscape(hi, UnicodeEscape(lo) + tail);
    ReadUnicodeEscape(lo, tail);
    assert w[1] == 'u' as int;
    assert w[6..] == UnicodeEscape(lo) + tail;
  }

  lemma EscapedPair(s: Text, rest: Text)
    requires |s| > 1 && IsHigh(s[0]) && IsLow(s[1])
    ensures EscapedTail(s, rest) == UnicodeEscape(s[0]) + (UnicodeEscape(s[1]) + EscapedTail(s[2..], rest))
  {
    EscapedTailStep(s, rest);
    EscapedTailStep(s[1..], rest);
    assert s[1..][1..] == s[2..];
  }

  lemma {:induction false} ScanEscaped(s: Text, rest: Text)
    ensures ScanString(EscapedTail(s, rest)) == Some((JoinPairs(s), rest))
    decreases |s|
  {
    var w := EscapedTail(s, rest);
    if s == [] {
      assert w == [QUOTE] + rest;
      assert w[1..] == rest;
    } else {
      if |s| > 1 && IsHigh(s[0]) && IsLow(s[1]) {
        ScanEscaped(s[2..], rest);
        EscapedPair(s, rest);
        ScanPair(s[0], s[1], EscapedTail(s[2..], rest));
      } else {
        ScanEscaped(s[1..], rest);
        EscapedTailStep(s, rest);
        if IsHigh(s[0]) {
          NoLowInTail(s[1..], rest);
        }
        ScanChar(s[0], EscapedTail(s[1..], rest));
      }
    }
  }

  lemma NoLowInTail(s: Text, rest: Text)
    requires s == [] || !IsLow(s[0])
    ensures NoLowHead(EscapedTail(s, rest))
  {
    if s == [] {
      assert EscapedTail(s, rest)[0] == QUOTE;
    } else {
      EscapedTailStep(s, rest);
      EscapeCharNoLow(s[0], EscapedTail(s[1..], rest));
    }
  }

  /** A string survives printing and reading exactly when it holds no split surrogate pair. */
  lemma StringRoundTripExactly(s: Text)
    ensures Loads(Dumps(Str(s))) == Some(Str(s)) <==> NoSplitPair(s)
  {
    var w := Dumps(Str(s));
    assert w == [QUOTE] + EscapedTail(s, []);
    assert w[1..] == EscapedTail(s, []);
    ScanEscaped(s, []);
    assert SkipSpace(w) == w;
    if !NoSplitPair(s) {
      JoinPairsShortens(s);
    }
  }
}
