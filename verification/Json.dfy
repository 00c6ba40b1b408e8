/** JSON trees, the text `json.dumps` prints for them and the parser `json.loads` runs on it
    (RFC 8259; strings: section 7). */
module Json {
  import opened Texts

  /** A Python value that `json.loads` can return. A number keeps its spelling. */
  datatype Json =
    | Null
    | Bool(b: bool)
    | Num(lexeme: Text)
    | Str(s: Text)
    | Arr(elems: seq<Json>)
    | Obj(members: seq<Member>)

  datatype Member = Member(key: Text, value: Json)

  const QUOTE: Code := '\"' as int
  const BACKSLASH: Code := '\\' as int
  const COMMA: Code := ',' as int
  const COLON: Code := ':' as int
  const OPEN_BRACKET: Code := '[' as int
  const CLOSE_BRACKET: Code := ']' as int
  const OPEN_BRACE: Code := '{' as int
  const CLOSE_BRACE: Code := '}' as int
  const SPACE: Code := ' ' as int

  // ---------- Python dicts: members in insertion order ----------

  function Get(d: seq<Member>, k: Text): Option<Json> {
    if d == [] then None
    else if d[0].key == k then Some(d[0].value)
    else Get(d[1..], k)
  }

  /** `d[k] = v`: an existing key keeps its place, a new one goes to the end. */
  function Put(d: seq<Member>, k: Text, v: Json): (r: seq<Member>)
    ensures forall q :: Get(r, q) == if q == k then Some(v) else Get(d, q)
    ensures Get(d, k).None? ==> r == d + [Member(k, v)]
  {
    if d == [] then [Member(k, v)]
    else if d[0].key == k then [Member(k, v)] + d[1..]
    else
      assert forall q :: Get(d, q) == if q == d[0].key then Some(d[0].value) else Get(d[1..], q);
      [d[0]] + Put(d[1..], k, v)
  }

  /** Assigning to a key that is there changes its entry in place and no other. */
  lemma {:induction false} PutInPlace(d: seq<Member>, k: Text, v: Json)
    requires Get(d, k).Some?
    ensures |Put(d, k, v)| == |d|
    ensures forall i :: 0 <= i < |d| ==>
      Put(d, k, v)[i].key == d[i].key && (d[i].key != k ==> Put(d, k, v)[i] == d[i])
  {
    if d[0].key != k {
      PutInPlace(d[1..], k, v);
      assert forall i :: 1 <= i < |d| ==> d[i] == d[1..][i - 1] && Put(d, k, v)[i] == Put(d[1..], k, v)[i - 1];
    }
  }

  /** `d.update(e)`. */
  function Update(d: seq<Member>, e: seq<Member>): seq<Member>
    decreases |e|
  {
    if e == [] then d else Update(Put(d, e[0].key, e[0].value), e[1..])
  }

  ghost predicate DistinctKeys(d: seq<Member>) {
    forall i, j :: 0 <= i < j < |d| ==> d[i].key != d[j].key
  }

  lemma {:induction false} GetNone(d: seq<Member>, k: Text)
    ensures Get(d, k).None? <==> forall i :: 0 <= i < |d| ==> d[i].key != k
  {
    if d != [] {
      GetNone(d[1..], k);
      assert forall i :: 1 <= i < |d| ==> d[i] == d[1..][i - 1];
    }
  }

  /** With distinct keys, lookup finds the member wherever it stands. */
  lemma {:induction false} GetAt(d: seq<Member>, i: nat)
    requires DistinctKeys(d) && i < |d|
    ensures Get(d, d[i].key) == Some(d[i].value)
  {
    if i > 0 {
      GetAt(d[1..], i - 1);
    }
  }

  lemma {:induction false} GetMember(d: seq<Member>, k: Text) returns (i: nat)
    requires Get(d, k).Some?
    ensures i < |d| && d[i] == Member(k, Get(d, k).value)
  {
    if d[0].key == k {
      i := 0;
    } else {
      var j := GetMember(d[1..], k);
      i := j + 1;
    }
  }

  /** What a dict holds after an update: the new entry where there is one, else the old. */
  lemma {:induction false} UpdateGet(d: seq<Member>, e: seq<Member>, k: Text)
    requires DistinctKeys(e)
    ensures Get(Update(d, e), k) == if Get(e, k).Some? then Get(e, k) else Get(d, k)
    decreases |e|
  {
    if e != [] {
      UpdateGet(Put(d, e[0].key, e[0].value), e[1..], k);
      if e[0].key == k {
        GetNone(e[1..], k);
      }
    }
  }

  lemma {:induction false} UpdateFresh(d: seq<Member>, e: seq<Member>)
    requires DistinctKeys(d + e)
    ensures Update(d, e) == d + e
    decreases |e|
  {
    if e == [] {
      assert d + e == d;
    } else {
      assert (d + e)[|d|] == e[0];
      forall i | 0 <= i < |d| ensures d[i].key != e[0].key {
        assert (d + e)[i] == d[i];
      }
      GetNone(d, e[0].key);
      assert e[0] == Member(e[0].key, e[0].value);
      assert (d + [e[0]]) + e[1..] == d + e;
      UpdateFresh(d + [e[0]], e[1..]);
    }
  }

  lemma {:induction false} PutDistinct(d: seq<Member>, k: Text, v: Json)
    requires DistinctKeys(d)
    ensures DistinctKeys(Put(d, k, v))
  {
    if d != [] && d[0].key != k {
      PutDistinct(d[1..], k, v);
      var r := Put(d[1..], k, v);
      assert Put(d, k, v) == [d[0]] + r;
      GetNone(d[1..], d[0].key);
      assert forall i :: 0 <= i < |d[1..]| ==> d[1..][i].key != d[0].key;
      GetNone(r, d[0].key);
    }
  }

  lemma {:induction false} UpdateDistinct(d: seq<Member>, e: seq<Member>)
    requires DistinctKeys(d)
    ensures DistinctKeys(Update(d, e))
    decreases |e|
  {
    if e != [] {
      PutDistinct(d, e[0].key, e[0].value);
      UpdateDistinct(Put(d, e[0].key, e[0].value), e[1..]);
    }
  }

  // ---------- dumps ----------

  function HexDigit(n: int): Code
    requires 0 <= n < 16
  {
    if n < 10 then '0' as int + n else 'a' as int + (n - 10)
  }

  /** A `\uXXXX` escape. */
  function UnicodeEscape(n: int): (t: Text)
    requires 0 <= n < 0x1_0000
    ensures |t| == 6
  {
    [BACKSLASH, 'u' as int, HexDigit(n / 0x1000), HexDigit(n / 0x100 % 16), HexDigit(n / 0x10 % 16), HexDigit(n % 16)]
  }

  predicate IsHigh(n: int) { 0xD800 <= n < 0xDC00 }

  predicate IsLow(n: int) { 0xDC00 <= n < 0xE000 }

  function HighHalf(c: Code): (n: int)
    requires c >= 0x1_0000
    ensures IsHigh(n)
  {
    0xD800 + (c - 0x1_0000) / 0x400
  }

  function LowHalf(c: Code): (n: int)
    requires c >= 0x1_0000
    ensures IsLow(n)
  {
    0xDC00 + (c - 0x1_0000) % 0x400
  }

  /** Characters `dumps` copies into the text as they are: printable ASCII but `"` and `\`. */
  predicate Unescaped(c: Code) {
    0x20 <= c <= 0x7E && c != QUOTE && c != BACKSLASH
  }

  /** The letter after the backslash in a two-character escape. */
  function ShortEscape(c: Code): Option<Code> {
    if c == QUOTE then Some(QUOTE)
    else if c == BACKSLASH then Some(BACKSLASH)
    else if c == 0x08 then Some('b' as int)
    else if c == 0x0C then Some('f' as int)
    else if c == 0x0A then Some('n' as int)
    else if c == 0x0D then Some('r' as int)
    else if c == 0x09 then Some('t' as int)
    else None
  }

  function EscapeChar(c: Code): (t: Text)
    ensures |t| > 0
    ensures Unescaped(c) ==> t == [c]
    ensures !Unescaped(c) ==> t[0] == BACKSLASH
  {
    if ShortEscape(c).Some? then [BACKSLASH, ShortEscape(c).value]
    else if Unescaped(c) then [c]
    else if c < 0x1_0000 then UnicodeEscape(c)
    else UnicodeEscape(HighHalf(c)) + UnicodeEscape(LowHalf(c))
  }

  function Escape(s: Text): Text {
    if s == [] then [] else EscapeChar(s[0]) + Escape(s[1..])
  }

  function Quoted(body: Text): Text {
    [QUOTE] + body + [QUOTE]
  }

  /** `json.dumps` with its default settings. */
  function Dumps(j: Json): Text
    decreases j, 1
  {
    match j
    case Null => Lit("null")
    case Bool(b) => if b then Lit("true") else Lit("false")
    case Num(lexeme) => lexeme
    case Str(s) => Quoted(Escape(s))
    case Arr(elems) => [OPEN_BRACKET] + DumpsElems(elems) + [CLOSE_BRACKET]
    case Obj(members) => [OPEN_BRACE] + DumpsMembers(members) + [CLOSE_BRACE]
  }

  function DumpsElems(elems: seq<Json>): Text
    decreases elems, 0
  {
    if elems == [] then []
    else if |elems| == 1 then Dumps(elems[0])
    else Dumps(elems[0]) + [COMMA, SPACE] + DumpsElems(elems[1..])
  }

  function DumpsMembers(members: seq<Member>): Text
    decreases members, 0
  {
    if members == [] then []
    else if |members| == 1 then DumpsMember(members[0])
    else DumpsMember(members[0]) + [COMMA, SPACE] + DumpsMembers(members[1..])
  }

  function DumpsMember(m: Member): Text
    decreases m, 2
  {
    Quoted(Escape(m.key)) + [COLON, SPACE] + Dumps(m.value)
  }

  // ---------- loads ----------

  function HexValue(c: Code): (r: Option<int>)
    ensures r.Some? ==> 0 <= r.value < 16
  {
    if '0' as int <= c <= '9' as int then Some(c - '0' as int)
    else if 'a' as int <= c <= 'f' as int then Some(c - 'a' as int + 10)
    else if 'A' as int <= c <= 'F' as int then Some(c - 'A' as int + 10)
    else None
  }

  /** The number behind `\uXXXX` at the head of `w`. */
  function ReadUnicode(w: Text): (r: Option<int>)
    ensures r.Some? ==> |w| >= 6 && 0 <= r.value < 0x1_0000
  {
    if |w| < 6 || w[0] != BACKSLASH || w[1] != 'u' as int then None
    else
      match (HexValue(w[2]), HexValue(w[3]), HexValue(w[4]), HexValue(w[5]))
      case (Some(a), Some(b), Some(c), Some(d)) => Some(a * 0x1000 + b * 0x100 + c * 0x10 + d)
      case _ => None
  }

  function ReadShort(c: Code): Option<Code> {
    if c == QUOTE || c == BACKSLASH || c == '/' as int then Some(c)
    else if c == 'b' as int then Some(0x08)
    else if c == 'f' as int then Some(0x0C)
    else if c == 'n' as int then Some(0x0A)
    else if c == 'r' as int then Some(0x0D)
    else if c == 't' as int then Some(0x09)
    else None
  }

  /** The character an escape stands for, and the length of the escape. A high surrogate takes
      a low one that follows it in. */
  function ReadEscape(w: Text): (r: Option<(Code, nat)>)
    requires w != [] && w[0] == BACKSLASH
    ensures r.Some? ==> 2 <= r.value.1 <= |w|
  {
    if |w| < 2 then None
    else if ReadShort(w[1]).Some? then Some((ReadShort(w[1]).value, 2))
    else
      match ReadUnicode(w)
      case None => None
      case Some(n) =>
        match if IsHigh(n) then ReadUnicode(w[6..]) else None
        case Some(m) =>
          if IsLow(m) then Some((0x1_0000 + (n - 0xD800) * 0x400 + (m - 0xDC00), 12)) else Some((n, 6))
        case None => Some((n, 6))
  }

  /** The string whose opening quote has been read, and the text after its closing quote. */
  function ScanString(w: Text): (r: Option<(Text, Text)>)
    ensures r.Some? ==> |r.value.0| + |r.value.1| < |w|
  {
    if w == [] then None
    else if w[0] == QUOTE then Some(([], w[1..]))
    else if w[0] == BACKSLASH then
      match ReadEscape(w)
      case None => None
      case Some((c, n)) =>
        match ScanString(w[n..])
        case None => None
        case Some((s, rest)) => Some(([c] + s, rest))
    else if w[0] < 0x20 then None
    else
      match ScanString(w[1..])
      case None => None
      case Some((s, rest)) => Some(([w[0]] + s, rest))
  }

  predicate IsSpace(c: Code) {
    c == SPACE || c == 0x09 || c == 0x0A || c == 0x0D
  }

  function SkipSpace(w: Text): (r: Text)
    ensures |r| <= |w|
  {
    if w != [] && IsSpace(w[0]) then SkipSpace(w[1..]) else w
  }

  predicate IsDigit(c: Code) { '0' as int <= c <= '9' as int }

  predicate IsNumberChar(c: Code) {
    IsDigit(c) || c == '-' as int || c == '+' as int || c == '.' as int || c == 'e' as int || c == 'E' as int
  }

  function NumberRun(w: Text): (r: Text)
    ensures |r| <= |w|
    ensures forall i :: 0 <= i < |r| ==> IsNumberChar(r[i])
  {
    if w != [] && IsNumberChar(w[0]) then [w[0]] + NumberRun(w[1..]) else []
  }

  function Digits(w: Text): (n: nat)
    ensures n <= |w|
  {
    if w != [] && IsDigit(w[0]) then 1 + Digits(w[1..]) else 0
  }

  function DigitsValue(t: Text): nat
    requires Digits(t) == |t|
  {
    if t == [] then 0 else
    DigitsPrefix(t);
    10 * DigitsValue(t[..|t| - 1]) + (t[|t| - 1] - '0' as int)
  }

  lemma {:induction false} DigitsPrefix(t: Text)
    requires t != [] && Digits(t) == |t|
    ensures Digits(t[..|t| - 1]) == |t| - 1 && IsDigit(t[|t| - 1])
  {
    if |t| > 1 {
      DigitsPrefix(t[1..]);
      assert t[..|t| - 1][1..] == t[1..][..|t| - 2];
    }
  }

  predicate IsExponent(w: Text) {
    w == [] ||
    (|w| > 1 && (w[0] == 'e' as int || w[0] == 'E' as int) &&
     var d := if w[1] == '+' as int || w[1] == '-' as int then w[2..] else w[1..];
     d != [] && Digits(d) == |d|)
  }

  /** A JSON number (section 6 of RFC 8259): sign, integer part, fraction, exponent. */
  predicate IsNumber(w: Text) {
    var u := if w != [] && w[0] == '-' as int then w[1..] else w;
    var n := Digits(u);
    n > 0 && (u[0] == '0' as int ==> n == 1) &&
    var v := u[n..];
    if v != [] && v[0] == '.' as int then Digits(v[1..]) > 0 && IsExponent(v[1 + Digits(v[1..])..])
    else IsExponent(v)
  }

  function ParseValue(w: Text): (r: Option<(Json, Text)>)
    ensures r.Some? ==> |r.value.1| < |w|
    decreases |w|, 1
  {
    if w == [] then None
    else if w[0] == QUOTE then
      match ScanString(w[1..])
      case None => None
      case Some((s, rest)) => Some((Str(s), rest))
    else if w[0] == OPEN_BRACKET then
      var v := SkipSpace(w[1..]);
      if v != [] && v[0] == CLOSE_BRACKET then Some((Arr([]), v[1..]))
      else
        match ParseElems(v)
        case None => None
        case Some((elems, rest)) => Some((Arr(elems), rest))
    else if w[0] == OPEN_BRACE then
      var v := SkipSpace(w[1..]);
      if v != [] && v[0] == CLOSE_BRACE then Some((Obj([]), v[1..]))
      else
        match ParseMembers(v)
        case None => None
        case Some((pairs, rest)) => Some((Obj(Update([], pairs)), rest))
    else if Lit("null") <= w then Some((Null, w[4..]))
    else if Lit("true") <= w then Some((Bool(true), w[4..]))
    else if Lit("false") <= w then Some((Bool(false), w[5..]))
    else
      var n := NumberRun(w);
      if n != [] && IsNumber(n) then Some((Num(n), w[|n|..])) else None
  }

  /** Array elements up to and including the closing bracket. */
  function ParseElems(w: Text): (r: Option<(seq<Json>, Text)>)
    ensures r.Some? ==> |r.value.1| < |w|
    decreases |w|, 2
  {
    match ParseValue(w)
    case None => None
    case Some((j, rest)) =>
      var v := SkipSpace(rest);
      if v == [] then None
      else if v[0] == CLOSE_BRACKET then Some(([j], v[1..]))
      else if v[0] != COMMA then None
      else
        match ParseElems(SkipSpace(v[1..]))
        case None => None
        case Some((js, rest')) => Some(([j] + js, rest'))
  }

  /** Object members, as the pairs the text lists, up to and including the closing brace. */
  function ParseMembers(w: Text): (r: Option<(seq<Member>, Text)>)
    ensures r.Some? ==> |r.value.1| < |w|
    decreases |w|, 2
  {
    match ParseMember(w)
    case None => None
    case Some((m, rest)) =>
      var v := SkipSpace(rest);
      if v == [] then None
      else if v[0] == CLOSE_BRACE then Some(([m], v[1..]))
      else if v[0] != COMMA then None
      else
        match ParseMembers(SkipSpace(v[1..]))
        case None => None
        case Some((ms, rest')) => Some(([m] + ms, rest'))
  }

  function ParseMember(w: Text): (r: Option<(Member, Text)>)
    ensures r.Some? ==> |r.value.1| < |w|
    decreases |w|, 0
  {
    if w == [] || w[0] != QUOTE then None
    else
      match ScanString(w[1..])
      case None => None
      case Some((key, rest)) =>
        var v := SkipSpace(rest);
        if v == [] || v[0] != COLON then None
        else
          match ParseValue(SkipSpace(v[1..]))
          case None => None
          case Some((value, rest')) => Some((Member(key, value), rest'))
  }

  /** `json.loads`: `None` where it raises. */
  function Loads(w: Text): Option<Json> {
    match ParseValue(SkipSpace(w))
    case None => None
    case Some((j, rest)) => if SkipSpace(rest) == [] then Some(j) else None
  }
}
