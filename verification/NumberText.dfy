/** Numbers written as text, and the parsers as the exact inverses of the writers. */
module NumberText {
  import opened Common
  import opened TextLines

  /** The bytes of an ASCII text. */
  function Ascii(text: string): (r: Bytes)
    ensures |r| == |text|
  {
    seq(|text|, i requires 0 <= i < |text| => (text[i] as int % 256) as byte)
  }

  function Digit(d: nat, upper: bool): byte
    requires d < 16
  {
    if d < 10 then '0' as int + d else if upper then 'A' as int + (d - 10) else 'a' as int + (d - 10)
  }

  // ---------------------------------------------------------------- hexadecimal

  /** The last hexadecimal digits of `v`, one for each entry of `upper`, which says which of them are capitals. */
  function Hex(v: nat, upper: seq<bool>): (r: Bytes)
    ensures |r| == |upper|
  {
    if upper == [] then []
    else Hex(v / 16, upper[..|upper| - 1]) + [Digit(v % 16, upper[|upper| - 1])]
  }

  predicate FitsHex(v: nat, width: nat) {
    if width == 0 then v == 0 else FitsHex(v / 16, width - 1)
  }

  function Capitals(s: Bytes): seq<bool> {
    seq(|s|, i requires 0 <= i < |s| => 'A' as int <= s[i] <= 'F' as int)
  }

  /** `s` is `v` in hexadecimal: digits in either case, with any number of leading zeros. */
  predicate WritesHex(s: Bytes, v: nat) {
    s != [] && FitsHex(v, |s|) && s == Hex(v, Capitals(s))
  }

  lemma {:induction false} HexValueOfHex(v: nat, upper: seq<bool>)
    requires FitsHex(v, |upper|)
    ensures HexValue(Hex(v, upper)) == v
    ensures forall i :: 0 <= i < |upper| ==> DigitValue(Hex(v, upper)[i]) < 16
  {
    if upper != [] {
      var front := upper[..|upper| - 1];
      HexValueOfHex(v / 16, front);
      assert Hex(v, upper)[..|upper| - 1] == Hex(v / 16, front);
    }
  }

  lemma {:induction false} HexOfHexValue(s: Bytes)
    requires forall i :: 0 <= i < |s| ==> DigitValue(s[i]) < 16
    ensures FitsHex(HexValue(s), |s|) && s == Hex(HexValue(s), Capitals(s))
  {
    if s != [] {
      var front := s[..|s| - 1];
      HexOfHexValue(front);
      assert Capitals(s)[..|s| - 1] == Capitals(front);
      LastHexDigit(HexValue(front), s[|s| - 1]);
      assert s == front + [s[|s| - 1]];
    }
  }

  lemma LastHexDigit(v: nat, digit: byte)
    requires DigitValue(digit) < 16
    ensures var w := v * 16 + DigitValue(digit);
            w / 16 == v && w % 16 == DigitValue(digit)
            && Digit(w % 16, 'A' as int <= digit <= 'F' as int) == digit
  {
  }

  /** The 32-bit hexadecimal parser gives a number exactly for its text, if the number has 32 bits, and otherwise none. */
  lemma ParseHex32Exactly(s: Bytes, v: nat)
    ensures ParseHex32(s) == Some(v) <==> v < 0x1_0000_0000 && WritesHex(s, v)
  {
    if WritesHex(s, v) {
      HexValueOfHex(v, Capitals(s));
    }
    if AllDigits(s, 16) {
      HexOfHexValue(s);
    }
  }

  /** Eight digits, in whatever cases, are read back as the number they write. */
  lemma EightHexDigits(v: nat, upper: seq<bool>)
    requires v < 0x1_0000_0000 && |upper| == 8
    ensures WritesHex(Hex(v, upper), v)
    ensures ParseHex32(Hex(v, upper)) == Some(v)
  {
    FitsEight(v);
    HexValueOfHex(v, upper);
    HexOfHexValue(Hex(v, upper));
  }

  lemma FitsEight(v: nat)
    requires v < 0x1_0000_0000
    ensures FitsHex(v, 8)
  {
    var a := v / 0x100;
    var b := a / 0x100;
    var c := b / 0x100;
    assert FitsHex(c, 2);
    assert FitsHex(b, 4);
    assert FitsHex(a, 6);
  }

  // ---------------------------------------------------------------- decimal

  /** The last `width` decimal digits of `n`. */
  function Digits(n: nat, width: nat): (r: Bytes)
    ensures |r| == width
  {
    if width == 0 then [] else Digits(n / 10, width - 1) + [Digit(n % 10, false)]
  }

  predicate FitsDecimal(n: nat, width: nat) {
    if width == 0 then n == 0 else FitsDecimal(n / 10, width - 1)
  }

  /** `s` is `n` in decimal, with any number of leading zeros. */
  predicate WritesNat(s: Bytes, n: nat) {
    s != [] && FitsDecimal(n, |s|) && s == Digits(n, |s|)
  }

  /** `s` is `v` in decimal with an optional sign; zero takes either. */
  predicate WritesInt(s: Bytes, v: int) {
    || (v >= 0 && WritesNat(s, v))
    || (v >= 0 && s != [] && s[0] == '+' as int && WritesNat(s[1..], v))
    || (v <= 0 && s != [] && s[0] == '-' as int && WritesNat(s[1..], -v))
  }

  /** The shortest decimal text of `n`. */
  function Decimal(n: nat): Bytes {
    if n < 10 then [Digit(n, false)] else Decimal(n / 10) + [Digit(n % 10, false)]
  }

  lemma {:induction false} DecimalWrites(n: nat)
    ensures WritesNat(Decimal(n), n)
  {
    if n < 10 {
      assert Digits(n / 10, 0) == [];
    } else {
      DecimalWrites(n / 10);
    }
  }

  lemma {:induction false} DecimalValueOfDigits(n: nat, width: nat)
    requires FitsDecimal(n, width)
    ensures DecimalValue(Digits(n, width)) == n
    ensures forall i :: 0 <= i < width ==> DigitValue(Digits(n, width)[i]) < 10
  {
    if width > 0 {
      DecimalValueOfDigits(n / 10, width - 1);
      assert Digits(n, width)[..width - 1] == Digits(n / 10, width - 1);
    }
  }

  lemma {:induction false} DigitsOfDecimalValue(s: Bytes)
    requires forall i :: 0 <= i < |s| ==> DigitValue(s[i]) < 10
    ensures FitsDecimal(DecimalValue(s), |s|) && s == Digits(DecimalValue(s), |s|)
  {
    if s != [] {
      var front := s[..|s| - 1];
      DigitsOfDecimalValue(front);
      assert s == front + [s[|s| - 1]];
    }
  }

  lemma DecimalExactly(s: Bytes, n: nat)
    ensures WritesNat(s, n) <==> AllDigits(s, 10) && DecimalValue(s) == n
  {
    if WritesNat(s, n) {
      DecimalValueOfDigits(n, |s|);
    }
    if AllDigits(s, 10) {
      DigitsOfDecimalValue(s);
    }
  }

  /** The 64-bit decimal parser gives a number exactly for its text, if the number is in range, and otherwise none. */
  lemma ParseInt64Exactly(s: Bytes, v: int)
    ensures ParseInt64(s) == Some(v)
            <==> -0x8000_0000_0000_0000 <= v < 0x8000_0000_0000_0000 && WritesInt(s, v)
  {
    var digits := if s != [] && (s[0] == 45 || s[0] == 43) then s[1..] else s;
    DecimalExactly(s, if v < 0 then -v else v);
    DecimalExactly(digits, if v < 0 then -v else v);
  }
}
