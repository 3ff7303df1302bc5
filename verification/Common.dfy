/** Bytes, optional values and weighted sums shared by the models. */
module Common {

  /** A Go `byte`: arithmetic on it wraps and is written out with `%` where the source wraps. */
  type byte = b: int | 0 <= b < 256

  type Bytes = seq<byte>

  datatype Option<+T> = None | Some(value: T)

  /** The value an `int64` holds after the exact result `x` was stored in it. */
  function Wrap64(x: int): (r: int)
    ensures -0x8000_0000_0000_0000 <= r < 0x8000_0000_0000_0000
    ensures -0x8000_0000_0000_0000 <= x < 0x8000_0000_0000_0000 ==> r == x
  {
    (x + 0x8000_0000_0000_0000) % 0x1_0000_0000_0000_0000 - 0x8000_0000_0000_0000
  }

  function Min(a: int, b: int): int {
    if a < b then a else b
  }

  function Max(a: int, b: int): int {
    if a > b then a else b
  }

  /** `weight` added up over `s`. */
  function SumOf<T>(s: seq<T>, weight: T -> int): int {
    if s == [] then 0 else weight(s[0]) + SumOf(s[1..], weight)
  }

  lemma {:induction false} SumOfConcat<T>(a: seq<T>, b: seq<T>, weight: T -> int)
    ensures SumOf(a + b, weight) == SumOf(a, weight) + SumOf(b, weight)
  {
    if a == [] {
      assert a + b == b;
    } else {
      assert (a + b)[1..] == a[1..] + b;
      SumOfConcat(a[1..], b, weight);
    }
  }

  /** Replacing one entry moves the sum by the difference of the two weights. */
  lemma {:induction false} SumOfUpdate<T>(s: seq<T>, i: nat, x: T, weight: T -> int)
    requires i < |s|
    ensures SumOf(s[i := x], weight) == SumOf(s, weight) - weight(s[i]) + weight(x)
  {
    if i > 0 {
      assert s[i := x][1..] == s[1..][i - 1 := x];
      SumOfUpdate(s[1..], i - 1, x, weight);
    } else {
      assert s[i := x][1..] == s[1..];
    }
  }

  lemma {:induction false} SumOfBound<T>(s: seq<T>, weight: T -> int, lo: int, hi: int)
    requires forall x | x in s :: lo <= weight(x) <= hi
    ensures lo * |s| <= SumOf(s, weight) <= hi * |s|
  {
    if s != [] {
      SumOfBound(s[1..], weight, lo, hi);
    }
  }
}
