/** Python strings as sequences of code points, and the few string operations the program uses. */
module Texts {

  datatype Option<+T> = None | Some(value: T)

  /** A code point. Surrogates are included: a Python `str` may hold them one by one. */
  type Code = c: int | 0 <= c < 0x11_0000

  type Text = seq<Code>

  const SLASH: Code := '/' as int
  const DOT: Code := '.' as int
  const DASH: Code := '-' as int

  function Lit(s: string): (t: Text)
    ensures |t| == |s|
  {
    seq(|s|, i requires 0 <= i < |s| => s[i] as int)
  }

  lemma ConcatAssociative(a: Text, b: Text, c: Text)
    ensures a + b + c == a + (b + c)
  {
  }

  /** The decimal spelling of a natural number, as `str` gives it. */
  function Decimal(n: nat): (t: Text)
    ensures |t| > 0
    ensures forall i :: 0 <= i < |t| ==> '0' as int <= t[i] <= '9' as int
  {
    if n < 10 then ['0' as int + n] else Decimal(n / 10) + ['0' as int + n % 10]
  }

  lemma {:induction false} DecimalInjective(m: nat, n: nat)
    requires Decimal(m) == Decimal(n)
    ensures m == n
  {
    if m < 10 || n < 10 {
    } else {
      var a, b := Decimal(m / 10), Decimal(n / 10);
      assert Decimal(m)[..|a|] == a && Decimal(n)[..|b|] == b;
      assert |Decimal(m)| == |a| + 1 && |Decimal(n)| == |b| + 1;
      DecimalInjective(m / 10, n / 10);
      assert Decimal(m)[|a|] == '0' as int + m % 10 && Decimal(n)[|b|] == '0' as int + n % 10;
    }
  }

  /** `pat in s`. */
  predicate Contains(s: Text, pat: Text) {
    exists i :: 0 <= i <= |s| && pat <= s[i..]
  }

  /** The part of `t` before the first `sep`, or all of it. */
  function Before(t: Text, sep: Code): (r: Text)
    ensures sep !in r
    ensures r <= t
    ensures |r| < |t| ==> t[|r|] == sep
  {
    if t == [] || t[0] == sep then [] else [t[0]] + Before(t[1..], sep)
  }

  lemma {:induction false} BeforeAll(t: Text, sep: Code)
    requires sep !in t
    ensures Before(t, sep) == t
  {
    if t != [] {
      BeforeAll(t[1..], sep);
    }
  }

  lemma {:induction false} BeforeOfJoin(a: Text, sep: Code, b: Text)
    requires sep !in a
    ensures Before(a + [sep] + b, sep) == a
  {
    if a != [] {
      assert (a + [sep] + b)[1..] == a[1..] + [sep] + b;
      BeforeOfJoin(a[1..], sep, b);
    }
  }

  /** Two texts joined by a separator that the first part lacks determine both parts. */
  lemma JoinInjective(a: Text, b: Text, sep: Code, c: Text, d: Text)
    requires sep !in a && sep !in c
    requires a + [sep] + b == c + [sep] + d
    ensures a == c && b == d
  {
    BeforeOfJoin(a, sep, b);
    BeforeOfJoin(c, sep, d);
    assert (a + [sep] + b)[|a| + 1..] == b;
    assert (c + [sep] + d)[|c| + 1..] == d;
  }

  lemma PrefixOfJoin(a: Text, x: Text, b: Text, y: Text)
    requires !(a <= b) && !(b <= a)
    ensures a + x != b + y
  {
    if |a| <= |b| {
      assert (a + x)[..|a|] == a && (b + y)[..|a|] == b[..|a|];
    } else {
      assert (a + x)[..|b|] == a[..|b|] && (b + y)[..|b|] == b;
    }
  }

  /** Exactly two texts, one of which begins the other, can be completed to the same text. */
  lemma CollisionExactly(m: Text, n: Text)
    ensures (forall x, y :: m + x != n + y) <==> !(m <= n) && !(n <= m)
  {
    if m <= n {
      assert m + n[|m|..] == n + [];
    } else if n <= m {
      assert m + [] == n + m[|n|..];
    } else {
      forall x, y ensures m + x != n + y {
        PrefixOfJoin(m, x, n, y);
      }
    }
  }
}
