/** The cache key of a binary as a string: `%d:%d:%s` of provider, newsgroup and binary key. */
module CacheKeys {
  import N = NumberText

  function Digit(n: nat): char
    requires n < 10
  {
    ['0', '1', '2', '3', '4', '5', '6', '7', '8', '9'][n]
  }

  function Digits(n: nat): string {
    if n < 10 then [Digit(n)] else Digits(n / 10) + [Digit(n % 10)]
  }

  function Decimal(n: int): string {
    if n < 0 then "-" + Digits(-n) else Digits(n)
  }

  function CacheKey(provider: int, newsgroup: int, binaryKey: string): string {
    Decimal(provider) + ":" + (Decimal(newsgroup) + ":" + binaryKey)
  }

  // ---------------------------------------------------------------- the key says what it was made of

  predicate IsDigits(s: string) {
    s != [] && forall i :: 0 <= i < |s| ==> '0' <= s[i] <= '9'
  }

  lemma {:induction false} DigitsAreDigits(n: nat)
    ensures IsDigits(Digits(n))
  {
    if n >= 10 {
      DigitsAreDigits(n / 10);
    }
  }

  lemma DigitsEqual(m: nat, n: nat)
    requires m < 10 && n < 10 && Digit(m) == Digit(n)
    ensures m == n
  {
  }

  lemma {:induction false} DigitsAreInjective(m: nat, n: nat)
    requires Digits(m) == Digits(n)
    ensures m == n
  {
    var s := Digits(m);
    DigitsAreDigits(m / 10);
    DigitsAreDigits(n / 10);
    if m < 10 {
      assert n < 10;
      DigitsEqual(m, n);
    } else {
      assert n >= 10;
      assert Digits(m / 10) == s[..|s| - 1] && Digits(n / 10) == s[..|s| - 1];
      DigitsAreInjective(m / 10, n / 10);
      DigitsEqual(m % 10, n % 10);
    }
  }

  /** The text of a number is that number. */
  lemma DecimalWritesNumber(n: int)
    ensures N.WritesInt(N.Ascii(Decimal(n)), n)
  {
    var m: nat := if n < 0 then -n else n;
    DigitsAreDecimal(m);
    N.DecimalWrites(m);
    if n < 0 {
      assert N.Ascii(Decimal(n))[1..] == N.Ascii(Digits(m));
    }
  }

  lemma {:induction false} DigitsAreDecimal(n: nat)
    ensures N.Ascii(Digits(n)) == N.Decimal(n)
  {
    if n >= 10 {
      DigitsAreDecimal(n / 10);
      assert N.Ascii(Digits(n)) == N.Ascii(Digits(n / 10)) + N.Ascii([Digit(n % 10)]);
    }
  }

  lemma DecimalIsInjective(m: int, n: int)
    requires Decimal(m) == Decimal(n)
    ensures m == n
  {
    var a: nat, b: nat := if m < 0 then -m else m, if n < 0 then -n else n;
    DigitsAreDigits(a);
    DigitsAreDigits(b);
    assert m < 0 ==> Decimal(m)[1..] == Digits(a) && Decimal(m)[0] == '-';
    assert n < 0 ==> Decimal(n)[1..] == Digits(b) && Decimal(n)[0] == '-';
    DigitsAreInjective(a, b);
  }

  predicate NoColon(s: string) {
    forall i :: 0 <= i < |s| ==> s[i] != ':'
  }

  lemma DecimalHasNoColon(n: int)
    ensures NoColon(Decimal(n))
  {
    DigitsAreDigits(if n < 0 then -n else n);
  }

  /** The first colon splits a string in one way. */
  lemma SplitAtColon(a: string, b: string, rest: string, rest': string)
    requires NoColon(a) && NoColon(b) && a + ":" + rest == b + ":" + rest'
    ensures a == b && rest == rest'
  {
    var s, t := a + ":" + rest, b + ":" + rest';
    assert s[|a|] == ':' && t[|b|] == ':';
    assert forall i :: 0 <= i < |a| ==> s[i] == a[i];
    assert forall i :: 0 <= i < |b| ==> t[i] == b[i];
    assert |a| == |b|;
    assert a == s[..|a|] && b == t[..|b|];
    assert rest == s[|a| + 1..] && rest' == t[|b| + 1..];
  }

  /** Equal cache keys mean the same provider, newsgroup and binary key, whatever characters the last holds. */
  lemma CacheKeyIsInjective(p: int, n: int, k: string, p': int, n': int, k': string)
    ensures CacheKey(p, n, k) == CacheKey(p', n', k') <==> p == p' && n == n' && k == k'
  {
    if CacheKey(p, n, k) == CacheKey(p', n', k') {
      DecimalHasNoColon(p);
      DecimalHasNoColon(p');
      SplitAtColon(Decimal(p), Decimal(p'), Decimal(n) + ":" + k, Decimal(n') + ":" + k');
      DecimalHasNoColon(n);
      DecimalHasNoColon(n');
      SplitAtColon(Decimal(n), Decimal(n'), k, k');
      DecimalIsInjective(p, p');
      DecimalIsInjective(n, n');
    }
  }

  // ---------------------------------------------------------------- the order of strings

  predicate AtMost(a: string, b: string) {
    a == [] || (b != [] && (a[0] < b[0] || (a[0] == b[0] && AtMost(a[1..], b[1..]))))
  }

  /** The first place where two strings differ, and `a` has the smaller character there. */
  predicate SmallerAt(a: string, b: string, i: nat) {
    i < |a| && i < |b| && a[..i] == b[..i] && a[i] < b[i]
  }

  lemma SmallerStarts(a: string, b: string, i: nat)
    requires SmallerAt(a, b, i)
    ensures a[0] <= b[0]
  {
    if i > 0 {
      assert a[..i][0] == b[..i][0];
    }
  }

  /** The order is that of a dictionary: a string comes before those it starts, and else the first difference decides. */
  lemma {:induction false} AtMostIsLexicographic(a: string, b: string)
    ensures AtMost(a, b) <==> a <= b || exists i :: SmallerAt(a, b, i)
  {
    if a != [] && b != [] {
      if a[0] == b[0] {
        AtMostIsLexicographic(a[1..], b[1..]);
        assert a == [a[0]] + a[1..] && b == [b[0]] + b[1..];
        if i: nat :| SmallerAt(a[1..], b[1..], i) {
          var n := i + 1;
          assert a[..n] == [a[0]] + a[1..][..i] && b[..n] == [b[0]] + b[1..][..i];
          assert SmallerAt(a, b, n);
        }
        if i: nat :| SmallerAt(a, b, i) {
          var k := i - 1;
          assert a[1..][..k] == a[..i][1..] && b[1..][..k] == b[..i][1..];
          assert SmallerAt(a[1..], b[1..], k);
        }
      } else if a[0] < b[0] {
        assert SmallerAt(a, b, 0);
      } else if i: nat :| SmallerAt(a, b, i) {
        SmallerStarts(a, b, i);
      }
    }
  }

  lemma {:induction false} AtMostIsTotal(a: string, b: string)
    ensures AtMost(a, b) || AtMost(b, a)
    ensures AtMost(a, b) && AtMost(b, a) ==> a == b
  {
    if a != [] && b != [] && a[0] == b[0] {
      AtMostIsTotal(a[1..], b[1..]);
      assert a == [a[0]] + a[1..] && b == [b[0]] + b[1..];
    }
  }

  lemma {:induction false} AtMostIsTransitive(a: string, b: string, c: string)
    requires AtMost(a, b) && AtMost(b, c)
    ensures AtMost(a, c)
  {
    if a != [] && a[0] == b[0] && b[0] == c[0] {
      AtMostIsTransitive(a[1..], b[1..], c[1..]);
    }
  }
}
