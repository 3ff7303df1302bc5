/** The pieces of `bufio`, `strings` and `strconv` that the yEnc and NNTP parsers use, on bytes. */
module TextLines {
  import opened Common

  const TAB: byte := 9
  const LF: byte := 10
  const CR: byte := 13
  const SPACE: byte := 32

  predicate IsSpace(b: byte) {
    b == SPACE || TAB <= b <= CR
  }

  /** Length of the first line with its newline, or of the whole stream when it has none. */
  function LineLength(s: Bytes): (n: nat)
    ensures n <= |s|
    ensures s != [] ==> n > 0
    ensures n < |s| ==> n > 0 && s[n - 1] == LF
  {
    if s == [] then 0
    else if s[0] == LF then 1
    else 1 + LineLength(s[1..])
  }

  /** `ReadString('\n')` returns an error exactly when the delimiter is missing. */
  predicate HasNewline(s: Bytes) {
    var n := LineLength(s);
    n > 0 && s[n - 1] == LF
  }

  /** A line that ends in its only newline is the first line of whatever follows it. */
  lemma {:induction false} LineLengthOfLine(line: Bytes, rest: Bytes)
    requires HasNewline(line) && LineLength(line) == |line|
    ensures LineLength(line + rest) == |line| && HasNewline(line + rest)
  {
    if line[0] != LF {
      assert (line + rest)[1..] == line[1..] + rest;
      LineLengthOfLine(line[1..], rest);
    }
  }

  /** Length of the leading run of non-space bytes. */
  function WordLength(s: Bytes): (n: nat)
    ensures n <= |s|
    ensures n < |s| ==> IsSpace(s[n])
  {
    if s == [] || IsSpace(s[0]) then 0 else 1 + WordLength(s[1..])
  }

  /** `strings.Fields` on ASCII text. */
  function Fields(s: Bytes): seq<Bytes>
    decreases |s|
  {
    if s == [] then []
    else if IsSpace(s[0]) then Fields(s[1..])
    else [s[..WordLength(s)]] + Fields(s[WordLength(s)..])
  }

  /** The bytes `strings.Fields` splits ASCII text at: TAB, LF, VT, FF, CR and space. */
  const WHITE_SPACE: Bytes := [9, 10, 11, 12, 13, 32]

  predicate IsWord(w: Bytes) {
    w != [] && forall i :: 0 <= i < |w| ==> w[i] !in WHITE_SPACE
  }

  /** White space inside a line. */
  predicate IsGap(g: Bytes) {
    forall i :: 0 <= i < |g| ==> g[i] in WHITE_SPACE && g[i] != 10
  }

  /** A line of words, each with the white space behind it, ended by a newline. */
  function Line(words: seq<Bytes>, gaps: seq<Bytes>): Bytes
    requires |words| == |gaps|
  {
    if words == [] then [10] else words[0] + (gaps[0] + Line(words[1..], gaps[1..]))
  }

  /** Words of one line: the gap behind a word may be empty only at the end. */
  predicate Spaced(words: seq<Bytes>, gaps: seq<Bytes>) {
    && |words| == |gaps|
    && (forall i :: 0 <= i < |words| ==> IsWord(words[i]))
    && (forall i :: 0 <= i < |gaps| ==> IsGap(gaps[i]))
    && forall i :: 0 <= i < |gaps| - 1 ==> gaps[i] != []
  }

  lemma {:induction false} WordLengthOfWord(w: Bytes, rest: Bytes)
    requires forall i :: 0 <= i < |w| ==> !IsSpace(w[i])
    requires rest != [] && IsSpace(rest[0])
    ensures WordLength(w + rest) == |w|
  {
    if w != [] {
      assert (w + rest)[1..] == w[1..] + rest;
      WordLengthOfWord(w[1..], rest);
    } else {
      assert w + rest == rest;
    }
  }

  lemma FieldsOfWord(w: Bytes, tail: Bytes)
    requires IsWord(w)
    requires tail != [] && IsSpace(tail[0])
    ensures Fields(w + tail) == [w] + Fields(tail)
  {
    WordLengthOfWord(w, tail);
    assert (w + tail)[..|w|] == w && (w + tail)[|w|..] == tail;
  }

  lemma {:induction false} FieldsOfGap(gap: Bytes, rest: Bytes)
    requires IsGap(gap)
    ensures Fields(gap + rest) == Fields(rest)
  {
    if gap == [] {
      assert gap + rest == rest;
    } else {
      assert (gap + rest)[1..] == gap[1..] + rest;
      FieldsOfGap(gap[1..], rest);
    }
  }

  /** Fields recovers the words a line was written from, however they are spaced. */
  lemma {:induction false} FieldsOfLine(words: seq<Bytes>, gaps: seq<Bytes>)
    requires Spaced(words, gaps)
    ensures Fields(Line(words, gaps)) == words
    decreases |words|
  {
    if words == [] {
      assert Fields([10][1..]) == [];
    } else {
      var rest := Line(words[1..], gaps[1..]);
      FieldsOfLine(words[1..], gaps[1..]);
      FieldsOfGap(gaps[0], rest);
      FieldsOfWord(words[0], gaps[0] + rest);
    }
  }

  /** A line written from words has its only newline at the end, whatever follows. */
  lemma {:induction false} LineLengthOfWords(words: seq<Bytes>, gaps: seq<Bytes>, rest: Bytes)
    requires Spaced(words, gaps)
    ensures LineLength(Line(words, gaps) + rest) == |Line(words, gaps)| && HasNewline(Line(words, gaps) + rest)
    decreases |words|
  {
    if words != [] {
      var tail := Line(words[1..], gaps[1..]);
      LineLengthOfWords(words[1..], gaps[1..], rest);
      LineLengthWithin(gaps[0], tail + rest);
      LineLengthWithin(words[0], gaps[0] + (tail + rest));
      assert Line(words, gaps) + rest == words[0] + (gaps[0] + (tail + rest));
    }
  }

  lemma {:induction false} LineLengthWithin(s: Bytes, rest: Bytes)
    requires forall i :: 0 <= i < |s| ==> s[i] != LF
    ensures LineLength(s + rest) == |s| + LineLength(rest)
    ensures HasNewline(s + rest) <==> HasNewline(rest)
  {
    if s == [] {
      assert s + rest == rest;
    } else {
      assert (s + rest)[1..] == s[1..] + rest;
      LineLengthWithin(s[1..], rest);
    }
  }

  /** What follows the first word of a written line. */
  datatype Written = Written(gap: Bytes, fields: seq<Bytes>, gaps: seq<Bytes>)
  {
    predicate Valid() {
      IsGap(gap) && gap != [] && Spaced(fields, gaps)
    }

    function Text(): Bytes
      requires Valid()
    {
      gap + Line(fields, gaps)
    }
  }

  lemma WrittenIsRead(word: Bytes, line: Written, rest: Bytes)
    requires IsWord(word) && line.Valid()
    ensures Fields(word + line.Text()) == [word] + line.fields
    ensures LineLength(word + line.Text() + rest) == |word + line.Text()| && HasNewline(word + line.Text() + rest)
  {
    var words, spaces := [word] + line.fields, [line.gap] + line.gaps;
    assert words[1..] == line.fields && spaces[1..] == line.gaps;
    assert forall i :: 0 <= i < |line.fields| ==> words[i + 1] == line.fields[i] && spaces[i + 1] == line.gaps[i];
    assert Spaced(words, spaces);
    LineLengthOfWords(words, spaces, rest);
    FieldsOfLine(words, spaces);
  }

  predicate HasPrefix(s: Bytes, prefix: Bytes) {
    prefix <= s
  }

  function DigitValue(b: byte): (v: nat)
    ensures v <= 99
  {
    if 48 <= b <= 57 then b - 48
    else if 97 <= b <= 102 then b - 87
    else if 65 <= b <= 70 then b - 55
    else 99
  }

  function DecimalValue(s: Bytes): nat {
    if s == [] then 0 else DecimalValue(s[..|s| - 1]) * 10 + DigitValue(s[|s| - 1])
  }

  function HexValue(s: Bytes): nat {
    if s == [] then 0 else HexValue(s[..|s| - 1]) * 16 + DigitValue(s[|s| - 1])
  }

  predicate AllDigits(s: Bytes, radix: nat) {
    s != [] && forall i :: 0 <= i < |s| ==> DigitValue(s[i]) < radix
  }

  /** `strconv.ParseUint(val, 16, 32)`. */
  function ParseHex32(s: Bytes): (r: Option<nat>)
    ensures r.Some? ==> r.value < 0x1_0000_0000
  {
    if AllDigits(s, 16) && HexValue(s) < 0x1_0000_0000 then Some(HexValue(s)) else None
  }

  /** `strconv.ParseInt(val, 10, 64)`, and `strconv.Atoi` where `int` has 64 bits. */
  function ParseInt64(s: Bytes): (r: Option<int>)
    ensures r.Some? ==> -0x8000_0000_0000_0000 <= r.value < 0x8000_0000_0000_0000
  {
    var negative := s != [] && s[0] == 45;
    var digits := if s != [] && (s[0] == 45 || s[0] == 43) then s[1..] else s;
    if !AllDigits(digits, 10) then None
    else
      var magnitude: int := DecimalValue(digits);
      var value := if negative then -magnitude else magnitude;
      if -0x8000_0000_0000_0000 <= value < 0x8000_0000_0000_0000 then Some(value) else None
  }
}
