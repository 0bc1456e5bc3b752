/** Numbers as bytes, in either byte order (PackNum and UnpackNum). */
module ByteOrder {

  type Byte = x: int | 0 <= x < 256

  datatype Mode = BigEndian | LittleEndian

  function Pow256(n: nat): (p: nat)
    ensures p >= 1
  {
    if n == 0 then 1 else 256 * Pow256(n - 1)
  }

  /** What a byte string says when its first byte weighs least. */
  function Value(s: seq<Byte>): nat {
    if s == [] then 0 else s[0] + 256 * Value(s[1..])
  }

  function Reverse(s: seq<Byte>): (r: seq<Byte>)
    ensures |r| == |s| && forall i :: 0 <= i < |s| ==> r[i] == s[|s| - 1 - i]
  {
    if s == [] then [] else Reverse(s[1..]) + [s[0]]
  }

  function Number(mode: Mode, s: seq<Byte>): nat {
    Value(if mode == LittleEndian then s else Reverse(s))
  }

  function Digits(num: nat, width: nat): (s: seq<Byte>)
    ensures |s| == width
  {
    if width == 0 then [] else [num % 256] + Digits(num / 256, width - 1)
  }

  function Bytes(mode: Mode, num: nat, width: nat): (s: seq<Byte>)
    ensures |s| == width
  {
    if mode == LittleEndian then Digits(num, width) else Reverse(Digits(num, width))
  }

  lemma {:induction false} ValueOfDigits(num: nat, width: nat)
    requires num < Pow256(width)
    ensures Value(Digits(num, width)) == num
  {
    if width > 0 {
      assert num / 256 < Pow256(width - 1);
      ValueOfDigits(num / 256, width - 1);
      assert Digits(num, width)[1..] == Digits(num / 256, width - 1);
    }
  }

  lemma {:induction false} DigitsOfValue(s: seq<Byte>)
    ensures Value(s) < Pow256(|s|) && Digits(Value(s), |s|) == s
  {
    if s != [] {
      DigitsOfValue(s[1..]);
      assert Value(s) / 256 == Value(s[1..]) && Value(s) % 256 == s[0];
    }
  }

  lemma ReverseTwice(s: seq<Byte>)
    ensures Reverse(Reverse(s)) == s
  {
    hide Reverse;
  }

  lemma {:induction false} DigitAt(num: nat, width: nat, i: nat)
    requires i < width
    ensures Digits(num, width)[i] == num / Pow256(i) % 256
    decreases i
  {
    DigitsFirst(num, width);
    if i > 0 {
      hide Digits, Pow256;
      DigitAt(num / 256, width - 1, i - 1);
      PowMore(i);
      DividedTwice(num, Pow256(i - 1));
    }
  }

  lemma PowMore(i: nat)
    requires i > 0
    ensures Pow256(i) == 256 * Pow256(i - 1)
  {
  }

  lemma PowNone()
    ensures Pow256(0) == 1
  {
  }

  lemma DigitsFirst(num: nat, width: nat)
    requires width > 0
    ensures Digits(num, width) == [num % 256] + Digits(num / 256, width - 1)
  {
  }

  /** The byte with index `i` from the least significant end is that digit; the order says which end comes first. */
  lemma ByteAt(num: nat, width: nat, i: nat)
    requires i < width
    ensures Bytes(LittleEndian, num, width)[i] == num / Pow256(i) % 256
    ensures Bytes(BigEndian, num, width)[width - 1 - i] == num / Pow256(i) % 256
  {
    hide Digits, Reverse, Pow256;
    DigitAt(num, width, i);
  }

  lemma DividedTwice(num: nat, p: nat)
    requires p > 0
    ensures num / 256 / p == num / (256 * p)
  {
    var q, r := num / (256 * p), num % (256 * p);
    Quotient(num, 256 * p);
    Quotient(r, 256);
    assert num == 256 * (q * p + r / 256) + r % 256 by { assert q * (256 * p) == 256 * (q * p); }
    QuotientIs(num, 256, q * p + r / 256, r % 256);
    QuotientIs(num / 256, p, q, r / 256);
  }

  lemma Quotient(n: nat, d: nat)
    requires d > 0
    ensures n == n / d * d + n % d && n % d < d
  {
  }

  lemma QuotientIs(n: nat, d: nat, q: nat, r: nat)
    requires d > 0 && n == q * d + r && r < d
    ensures n / d == q
  {
    var p := n / d;
    Quotient(n, d);
    assert (p - q) * d == p * d - q * d;
    Multiple(p - q, d);
  }

  lemma Multiple(x: int, d: nat)
    ensures x >= 1 ==> x * d >= d
    ensures x <= -1 ==> x * d <= 0 - d
  {
    if x >= 1 {
      assert x * d == d + (x - 1) * d;
    } else {
      assert x * d == (x + 1) * d - d;
    }
  }

  /** Packing and unpacking are mutual inverses, for every width and both orders. */
  lemma RoundTrip(mode: Mode, num: nat, width: nat)
    requires num < Pow256(width)
    ensures Number(mode, Bytes(mode, num, width)) == num
  {
    ValueOfDigits(num, width);
    ReverseTwice(Digits(num, width));
  }

  lemma RoundTripBytes(mode: Mode, s: seq<Byte>)
    ensures Number(mode, s) < Pow256(|s|) && Bytes(mode, Number(mode, s), |s|) == s
  {
    DigitsOfValue(s);
    DigitsOfValue(Reverse(s));
    ReverseTwice(s);
  }

  /** The bytes from index `i` on, weighed from the least significant end. */
  function Tail(mode: Mode, s: seq<Byte>, i: nat): nat
    requires i <= |s|
  {
    Number(mode, if mode == LittleEndian then s[|s| - i..] else s[..i])
  }

  lemma TailStep(mode: Mode, s: seq<Byte>, i: nat)
    requires i < |s|
    ensures Tail(mode, s, i + 1) == 256 * Tail(mode, s, i) + s[if mode == LittleEndian then |s| - 1 - i else i]
    ensures Tail(mode, s, i) < Pow256(i)
  {
    if mode == LittleEndian {
      var t := s[|s| - 1 - i..];
      assert t[1..] == s[|s| - i..];
      TailOfValue(t);
    } else {
      hide Value;
      ReverseMore(s[..i + 1]);
      assert s[..i + 1][..i] == s[..i];
      TailOfValue(Reverse(s[..i + 1]));
    }
  }

  lemma TailOfValue(t: seq<Byte>)
    requires t != []
    ensures Value(t) == 256 * Value(t[1..]) + t[0] && Value(t[1..]) < Pow256(|t| - 1)
  {
    DigitsOfValue(t[1..]);
  }

  lemma {:induction false} ReverseMore(s: seq<Byte>)
    requires s != []
    ensures Reverse(s)[0] == s[|s| - 1] && Reverse(s)[1..] == Reverse(s[..|s| - 1])
  {
    if |s| > 1 {
      ReverseMore(s[1..]);
      assert s[1..][..|s| - 2] == s[..|s| - 1][1..];
    }
  }

  /** `num <<= 8` in an unsigned type of `width` bytes. */
  function ShiftLeft8(num: nat, width: nat): nat { (256 * num) % Pow256(width) }

  /** `num | b` when the lowest byte of `num` is clear. */
  function OrByte(num: nat, b: Byte): nat
    requires num % 256 == 0
  {
    num + b
  }

  method UnpackNum(mode: Mode, data: seq<Byte>) returns (num: nat)
    requires |data| >= 1
    ensures num == Number(mode, data)
  {
    hide Pow256, Number, ShiftLeft8, Tail;
    num := 0;
    var width := |data|;
    TailStart(mode, data);
    if mode == BigEndian {
      var i := 0;
      while i < width
        invariant 0 <= i <= width && num == Tail(mode, data, i)
      {
        TailStep(mode, data, i);
        ShiftFits(num, i, width);
        num := ShiftLeft8(num, width);
        num := OrByte(num, data[i]);
        i := i + 1;
      }
      TailIsAll(mode, data);
    } else {
      var i := width - 1;
      while i >= 0
        invariant -1 <= i < width && num == Tail(mode, data, width - 1 - i)
      {
        TailStep(mode, data, width - 1 - i);
        ShiftFits(num, width - 1 - i, width);
        num := ShiftLeft8(num, width);
        num := OrByte(num, data[i]);
        i := i - 1;
      }
      TailIsAll(mode, data);
    }
  }

  lemma TailStart(mode: Mode, s: seq<Byte>)
    ensures Tail(mode, s, 0) == 0
  {
  }

  lemma TailIsAll(mode: Mode, s: seq<Byte>)
    ensures Tail(mode, s, |s|) == Number(mode, s)
  {
    assert s[0..] == s && s[..|s|] == s;
  }

  lemma ShiftFits(num: nat, i: nat, width: nat)
    requires num < Pow256(i) && i < width
    ensures ShiftLeft8(num, width) == 256 * num
  {
    PowGrows(i + 1, width);
    assert 256 * num < Pow256(i + 1);
    SmallRemainder(256 * num, Pow256(width));
  }

  lemma SmallRemainder(x: nat, m: nat)
    requires x < m
    ensures x % m == x
  {
  }

  lemma {:induction false} PowGrows(a: nat, b: nat)
    requires a <= b
    ensures Pow256(a) <= Pow256(b)
  {
    if a < b { PowGrows(a, b - 1); }
  }

  lemma DigitsStep(d: seq<Byte>, i: nat, num: nat)
    requires i < |d| && d[i..] == Digits(num, |d| - i)
    ensures d[i] == num % 256 && d[i + 1..] == Digits(num / 256, |d| - i - 1)
  {
    assert d[i + 1..] == d[i..][1..];
  }

  method PackNum(mode: Mode, data: array<Byte>, n: nat, width: nat)
    requires data.Length >= width >= 1 && n < Pow256(width)
    modifies data
    ensures data[..width] == Bytes(mode, n, width) && data[width..] == old(data[width..])
  {
    if mode == BigEndian {
      PackBigEndian(data, n, width);
    } else {
      PackLittleEndian(data, n, width);
    }
  }

  method PackBigEndian(data: array<Byte>, n: nat, width: nat)
    requires data.Length >= width
    modifies data
    ensures data[..width] == Bytes(BigEndian, n, width) && data[width..] == old(data[width..])
  {
    var num, i := n, width - 1;
    ghost var d := Digits(n, width);
    hide Digits, Reverse;
    while i >= 0
      invariant -1 <= i < width && d[width - 1 - i..] == Digits(num, i + 1)
      invariant forall k :: i < k < width ==> data[k] == d[width - 1 - k]
      invariant forall k :: width <= k < data.Length ==> data[k] == old(data[k])
    {
      DigitsStep(d, width - 1 - i, num);
      data[i] := num % 256;
      num := num / 256;
      i := i - 1;
    }
  }

  method PackLittleEndian(data: array<Byte>, n: nat, width: nat)
    requires data.Length >= width
    modifies data
    ensures data[..width] == Bytes(LittleEndian, n, width) && data[width..] == old(data[width..])
  {
    var num, i := n, 0;
    ghost var d := Digits(n, width);
    hide Digits, Reverse;
    while i < width
      invariant 0 <= i <= width && d[i..] == Digits(num, width - i)
      invariant forall k :: 0 <= k < i ==> data[k] == d[k]
      invariant forall k :: width <= k < data.Length ==> data[k] == old(data[k])
    {
      DigitsStep(d, i, num);
      data[i] := num % 256;
      num := num / 256;
      i := i + 1;
    }
  }

  /** What stands for the operations on bits above is what they do on a 64-bit number and a byte. */
  lemma BitsOfByte(x: bv64, b: bv64)
    requires b < 256
    ensures (x << 8) | b == (x << 8) + b && x << 8 == 256 * x
    ensures x & 0xff == x % 256 && x >> 8 == x / 256
  {
  }
}
