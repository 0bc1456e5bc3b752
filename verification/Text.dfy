/** What the message parsers use of the string library: searching, and numbers as text. */
module Text {
  import opened Options

  const NPOS := -1

  predicate Match(s: string, pat: string, i: int) { 0 <= i && i + |pat| <= |s| && s[i..i + |pat|] == pat }

  /** The first position from `from` on where `pat` occurs in `s`, or NPOS. */
  function Find(s: string, pat: string, from: nat): (r: int)
    ensures r == NPOS || (from <= r && r + |pat| <= |s| && Match(s, pat, r))
    ensures forall i :: from <= i && (r == NPOS || i < r) ==> !Match(s, pat, i)
    decreases |s| - from
  {
    if from + |pat| > |s| then NPOS
    else if Match(s, pat, from) then from
    else Find(s, pat, from + 1)
  }

  lemma FindIs(s: string, pat: string, from: nat, r: nat)
    requires from <= r && Match(s, pat, r) && forall i :: from <= i < r ==> !Match(s, pat, i)
    ensures Find(s, pat, from) == r
  {
  }

  lemma FindNone(s: string, pat: string, from: nat)
    requires forall i :: from <= i ==> !Match(s, pat, i)
    ensures Find(s, pat, from) == NPOS
  {
  }

  /** A string none of whose characters is the first of `pat` cannot hold the beginning of a match. */
  lemma NoMatchWithin(s: string, pat: string, lo: nat, hi: nat)
    requires pat != "" && hi <= |s| && forall i :: lo <= i < hi ==> s[i] != pat[0]
    ensures forall i :: lo <= i < hi ==> !Match(s, pat, i)
  {
    forall i | lo <= i < hi ensures !Match(s, pat, i) {
      if i + |pat| <= |s| { assert s[i..i + |pat|][0] == s[i]; }
    }
  }

  lemma MatchShifted(a: string, s: string, pat: string, i: int)
    requires 0 <= i
    ensures Match(a + s, pat, |a| + i) <==> Match(s, pat, i)
  {
    if i + |pat| <= |s| { assert (a + s)[|a| + i..|a| + i + |pat|] == s[i..i + |pat|]; }
  }

  /** Searching behind a prefix. */
  lemma FindShifted(a: string, s: string, pat: string, from: nat)
    ensures Find(a + s, pat, |a| + from) == if Find(s, pat, from) == NPOS then NPOS else |a| + Find(s, pat, from)
  {
    var r := Find(s, pat, from);
    MatchShifted(a, s, pat, if r == NPOS then 0 else r);
    if r == NPOS {
      forall i | |a| + from <= i ensures !Match(a + s, pat, i) { MatchShifted(a, s, pat, i - |a|); }
      FindNone(a + s, pat, |a| + from);
    } else {
      forall i | |a| + from <= i < |a| + r ensures !Match(a + s, pat, i) { MatchShifted(a, s, pat, i - |a|); }
      FindIs(a + s, pat, |a| + from, |a| + r);
    }
  }

  /** A prefix that stops short of the end of the first match holds none; a longer one holds the same. */
  lemma FindInPrefix(s: string, pat: string, n: nat)
    requires pat != "" && n <= |s| && Find(s, pat, 0) != NPOS
    ensures Find(s[..n], pat, 0) == if n < Find(s, pat, 0) + |pat| then NPOS else Find(s, pat, 0)
  {
    hide Find, Match;
    var r := Find(s, pat, 0);
    forall i | 0 <= i ensures Match(s[..n], pat, i) <==> i + |pat| <= n && Match(s, pat, i) { MatchInPrefix(s, pat, n, i); }
    if n < r + |pat| { FindNone(s[..n], pat, 0); } else { FindIs(s[..n], pat, 0, r); }
  }

  lemma MatchInPrefix(s: string, pat: string, n: nat, i: nat)
    requires n <= |s|
    ensures Match(s[..n], pat, i) <==> i + |pat| <= n && Match(s, pat, i)
  {
    if i + |pat| <= n { assert s[..n][i..i + |pat|] == s[i..i + |pat|]; }
  }

  // ----- Numbers -----

  predicate IsSpace(c: char) { c == ' ' || '\t' <= c <= '\r' }

  function Trim(s: string): string { if s != "" && IsSpace(s[0]) then Trim(s[1..]) else s }

  function DigitValue(c: char): nat {
    if '0' <= c <= '9' then c as nat - '0' as nat
    else if 'a' <= c <= 'z' then c as nat - 'a' as nat + 10
    else if 'A' <= c <= 'Z' then c as nat - 'A' as nat + 10
    else 36
  }

  predicate IsDigit(c: char, base: nat) { DigitValue(c) < base }

  predicate StartsWithDigit(s: string, base: nat) { s != "" && IsDigit(s[0], base) }

  /** The value of the digits a string starts with, following on a value already read. */
  function ReadDigits(s: string, base: nat, acc: int): int {
    if StartsWithDigit(s, base) then ReadDigits(s[1..], base, acc * base + DigitValue(s[0])) else acc
  }

  const INT_MIN := -0x8000_0000
  const INT_MAX := 0x7fff_ffff

  /** `stoi`: blanks, a sign, the prefix of a hexadecimal number, then digits; None where it throws. */
  function Stoi(s: string, base: nat): Option<int> {
    var t := Trim(s);
    var signed := t != "" && (t[0] == '-' || t[0] == '+');
    var u := if signed then t[1..] else t;
    var w := if base == 16 && |u| >= 3 && u[0] == '0' && (u[1] == 'x' || u[1] == 'X') && IsDigit(u[2], 16) then u[2..] else u;
    if !StartsWithDigit(w, base) then None
    else
      var v := if signed && t[0] == '-' then -ReadDigits(w, base, 0) else ReadDigits(w, base, 0);
      if INT_MIN <= v <= INT_MAX then Some(v) else None
  }

  lemma StoiInRange(s: string, base: nat)
    ensures Stoi(s, base).Some? ==> INT_MIN <= Stoi(s, base).value <= INT_MAX
  {
    hide ReadDigits, Trim;
  }

  function DigitChar(d: nat): (c: char)
    requires d < 16
    ensures DigitValue(c) == d && c != 'x'
  {
    if d < 10 then '0' + d as char else 'a' + (d - 10) as char
  }

  /** A number as text, without leading zeros. */
  function Print(n: nat, base: nat): (s: string)
    requires 2 <= base <= 16
    ensures s != "" && forall i :: 0 <= i < |s| ==> IsDigit(s[i], base) && s[i] != 'x'
  {
    if n < base then [DigitChar(n)]
    else
      Divided(n, base);
      QuotientSmaller(n / base, n % base, base, n);
      Print(n / base, base) + [DigitChar(n % base)]
  }

  lemma {:induction false} ReadAppended(s: string, c: char, t: string, base: nat, acc: int)
    requires forall i :: 0 <= i < |s| ==> IsDigit(s[i], base)
    requires IsDigit(c, base) && !StartsWithDigit(t, base)
    ensures ReadDigits(s + [c] + t, base, acc) == ReadDigits(s, base, acc) * base + DigitValue(c)
    decreases |s|
  {
    if s == "" {
      assert (s + [c] + t)[1..] == t;
    } else {
      assert (s + [c] + t)[1..] == s[1..] + [c] + t;
      ReadAppended(s[1..], c, t, base, acc * base + DigitValue(s[0]));
    }
  }

  lemma Divided(n: nat, base: nat)
    requires base >= 2
    ensures n / base * base + n % base == n
  {
  }

  lemma QuotientSmaller(q: nat, r: nat, base: nat, n: nat)
    requires base >= 2 && q * base + r == n > 0
    ensures q < n
  {
    assert q * base == q * 2 + q * (base - 2);
  }

  /** The last digit of a number, and what is printed before it. */
  lemma PrintOnce(n: nat, base: nat) returns (q: nat, r: nat)
    requires 2 <= base <= 16 && n >= base
    ensures q < n && r < base && q * base + r == n && Print(n, base) == Print(q, base) + [DigitChar(r)]
  {
    q, r := n / base, n % base;
    Divided(n, base);
    QuotientSmaller(q, r, base, n);
  }

  lemma {:induction false} ReadPrinted(n: nat, t: string, base: nat)
    requires 2 <= base <= 16 && !StartsWithDigit(t, base)
    ensures ReadDigits(Print(n, base) + t, base, 0) == n
    decreases n
  {
    if n < base {
      assert (Print(n, base) + t)[1..] == t;
    } else {
      hide Print, ReadDigits;
      var q, r := PrintOnce(n, base);
      ReadPrinted(q, "", base);
      assert Print(q, base) + "" == Print(q, base);
      ReadAppended(Print(q, base), DigitChar(r), t, base, 0);
    }
  }

  lemma {:induction false} TrimBlanks(blanks: string, s: string)
    requires (forall i :: 0 <= i < |blanks| ==> IsSpace(blanks[i])) && (s != "" ==> !IsSpace(s[0]))
    ensures Trim(blanks + s) == s
    decreases |blanks|
  {
    if blanks == "" {
      assert blanks + s == s;
    } else {
      assert (blanks + s)[1..] == blanks[1..] + s;
      TrimBlanks(blanks[1..], s);
    }
  }

  /** `stoi` undoes printing, behind any blanks and in front of anything that is not a digit. */
  lemma StoiOfPrint(blanks: string, n: nat, t: string, base: nat)
    requires base == 10 || base == 16
    requires forall i :: 0 <= i < |blanks| ==> IsSpace(blanks[i])
    requires n <= INT_MAX && !StartsWithDigit(t, base) && (t != "" ==> t[0] != 'x' && t[0] != 'X')
    ensures Stoi(blanks + Print(n, base) + t, base) == Some(n)
  {
    hide Print, ReadDigits, Trim;
    var s := Print(n, base);
    assert blanks + s + t == blanks + (s + t) && (s + t)[0] == s[0];
    TrimBlanks(blanks, s + t);
    assert |s| > 1 ==> (s + t)[1] == s[1];
    assert |s| == 1 && t != "" ==> (s + t)[1] == t[0];
    ReadPrinted(n, t, base);
  }

  // ----- Numerals -----

  const LOWER := "0123456789abcdef"
  const UPPER := "0123456789ABCDEF"

  /** Whether a character is one of the digits of a base, in either case. */
  predicate Numeric(c: char, base: nat)
    requires base <= 16
  {
    c in LOWER[..base] || c in UPPER[..base]
  }

  /** The string spells the digits, each in either case. */
  ghost predicate Spells(s: string, digits: seq<nat>, base: nat)
    requires base <= 16
  {
    |s| == |digits| && forall i :: 0 <= i < |s| ==> digits[i] < base && (s[i] == LOWER[digits[i]] || s[i] == UPPER[digits[i]])
  }

  /** What digits are worth, the last one weighing least. */
  function Worth(digits: seq<nat>, base: nat): nat
    decreases |digits|
  {
    if digits == [] then 0 else Worth(digits[..|digits| - 1], base) * base + digits[|digits| - 1]
  }

  lemma DigitsOfEitherCase(d: nat)
    requires d < 16
    ensures DigitValue(LOWER[d]) == d && DigitValue(UPPER[d]) == d
    ensures !IsSpace(LOWER[d]) && !IsSpace(UPPER[d]) && LOWER[d] !in "+-xX" && UPPER[d] !in "+-xX"
  {
    if d < 8 { FirstDigits(d); } else { LastDigits(d); }
  }

  lemma FirstDigits(d: nat)
    requires d < 8
    ensures LOWER[d] == UPPER[d] == '0' + d as char
  {
    assert LOWER[0] == '0' && LOWER[1] == '1' && LOWER[2] == '2' && LOWER[3] == '3';
    assert LOWER[4] == '4' && LOWER[5] == '5' && LOWER[6] == '6' && LOWER[7] == '7';
    assert UPPER[0] == '0' && UPPER[1] == '1' && UPPER[2] == '2' && UPPER[3] == '3';
    assert UPPER[4] == '4' && UPPER[5] == '5' && UPPER[6] == '6' && UPPER[7] == '7';
  }

  lemma LastDigits(d: nat)
    requires 8 <= d < 16
    ensures LOWER[d] == (if d < 10 then '0' + d as char else 'a' + (d - 10) as char)
    ensures UPPER[d] == (if d < 10 then '0' + d as char else 'A' + (d - 10) as char)
  {
    assert LOWER[8] == '8' && LOWER[9] == '9' && LOWER[10] == 'a' && LOWER[11] == 'b';
    assert LOWER[12] == 'c' && LOWER[13] == 'd' && LOWER[14] == 'e' && LOWER[15] == 'f';
    assert UPPER[8] == '8' && UPPER[9] == '9' && UPPER[10] == 'A' && UPPER[11] == 'B';
    assert UPPER[12] == 'C' && UPPER[13] == 'D' && UPPER[14] == 'E' && UPPER[15] == 'F';
  }

  /** The digits of base 10 and 16 are those characters and no others. */
  lemma DigitIff(c: char, base: nat)
    requires base == 10 || base == 16
    ensures IsDigit(c, base) <==> Numeric(c, base)
  {
    if IsDigit(c, base) {
      var d := DigitValue(c);
      if d < 8 { FirstDigits(d); } else { LastDigits(d); }
      if 'A' <= c <= 'Z' { assert c == UPPER[d] == UPPER[..base][d]; } else { assert c == LOWER[d] == LOWER[..base][d]; }
    } else {
      forall d | 0 <= d < base ensures LOWER[..base][d] != c && UPPER[..base][d] != c { DigitsOfEitherCase(d); }
    }
  }

  /** The blanks are the six characters that C counts as such. */
  lemma SpaceIff(c: char)
    ensures IsSpace(c) <==> c in [' ', '\t', '\n', 11 as char, 12 as char, '\r']
  {
  }

  lemma {:induction false} ReadSpelled(s: string, digits: seq<nat>, t: string, base: nat)
    requires 2 <= base <= 16 && Spells(s, digits, base) && !StartsWithDigit(t, base)
    ensures ReadDigits(s + t, base, 0) == Worth(digits, base)
    decreases |s|
  {
    if s == "" {
      assert s + t == t;
    } else {
      var n := |s| - 1;
      DigitsOfEitherCase(digits[n]);
      forall i | 0 <= i < n ensures IsDigit(s[..n][i], base) { DigitsOfEitherCase(digits[i]); }
      ReadSpelled(s[..n], digits[..n], "", base);
      assert s[..n] + "" == s[..n] && s[..n] + [s[n]] == s;
      ReadAppended(s[..n], s[n], t, base, 0);
    }
  }

  ghost predicate Blanks(s: string) { forall i :: 0 <= i < |s| ==> s[i] in [' ', '\t', '\n', 11 as char, 12 as char, '\r'] }

  lemma TrimNumeral(blanks: string, s: string)
    requires Blanks(blanks) && (s != "" ==> !IsSpace(s[0]))
    ensures Trim(blanks + s) == s
  {
    forall i | 0 <= i < |blanks| ensures IsSpace(blanks[i]) { SpaceIff(blanks[i]); }
    TrimBlanks(blanks, s);
  }

  /** What stands between the sign and the digits of a hexadecimal number. */
  ghost predicate Prefix(prefix: string, base: nat) { prefix == "" || (base == 16 && (prefix == "0x" || prefix == "0X")) }

  /**
    A numeral behind blanks, a sign and a prefix, and in front of what is no digit: its value, unless that is
    out of range. A zero must not be taken for the start of a prefix.
   */
  lemma StoiOfNumeral(blanks: string, sign: string, prefix: string, s: string, digits: seq<nat>, t: string, base: nat)
    requires base == 10 || base == 16
    requires Blanks(blanks) && sign in ["", "+", "-"] && Prefix(prefix, base) && s != "" && Spells(s, digits, base)
    requires t != "" ==> !Numeric(t[0], base)
    requires base == 16 && prefix == "" && s == "0" && |t| > 1 && t[0] in "xX" ==> !Numeric(t[1], 16)
    ensures var v := if sign == "-" then 0 - Worth(digits, base) else Worth(digits, base);
      Stoi(blanks + sign + prefix + s + t, base) == if INT_MIN <= v <= INT_MAX then Some(v) else None
  {
    hide ReadDigits, Trim, Worth, StartsWithDigit, IsDigit, Spells;
    var u := prefix + s + t;
    SpelledFirst(prefix, s, digits, t, base);
    if t != "" { DigitIff(t[0], base); }
    NotADigit(t, base);
    Unsigned(prefix, s, digits, t, base);
    ReadSpelled(s, digits, t, base);
    SignApart(blanks, sign, u);
    assert blanks + sign + prefix + s + t == blanks + sign + u;
  }

  lemma NotADigit(t: string, base: nat)
    requires t != "" ==> !IsDigit(t[0], base)
    ensures !StartsWithDigit(t, base)
  {
  }

  lemma SpelledFirst(prefix: string, s: string, digits: seq<nat>, t: string, base: nat)
    requires base == 10 || base == 16
    requires Prefix(prefix, base) && s != "" && Spells(s, digits, base)
    ensures var u := prefix + s + t; u != "" && !IsSpace(u[0]) && u[0] != '+' && u[0] != '-'
  {
    assert s[0] == LOWER[digits[0]] || s[0] == UPPER[digits[0]];
    DigitsOfEitherCase(digits[0]);
    assert (prefix + s + t)[0] == if prefix == "" then s[0] else '0';
  }

  /** Blanks and sign come off in front of what begins with neither. */
  lemma SignApart(blanks: string, sign: string, u: string)
    requires Blanks(blanks) && sign in ["", "+", "-"] && (u != "" && sign == "" ==> !IsSpace(u[0]) && u[0] != '+' && u[0] != '-')
    ensures var t := Trim(blanks + sign + u);
      && ((t != "" && (t[0] == '-' || t[0] == '+')) <==> sign != "") && (sign != "" ==> t[0] == sign[0] && t[1..] == u)
      && (sign == "" ==> t == u)
  {
    hide Trim;
    assert sign == "" ==> sign + u == u;
    assert sign != "" ==> (sign + u)[1..] == u && (sign + u)[0] == sign[0];
    TrimNumeral(blanks, sign + u);
    assert blanks + sign + u == blanks + (sign + u);
  }

  /** The prefix is dropped, and nothing else is. */
  lemma Unsigned(prefix: string, s: string, digits: seq<nat>, t: string, base: nat)
    requires base == 10 || base == 16
    requires Prefix(prefix, base) && s != "" && Spells(s, digits, base) && (t != "" ==> !Numeric(t[0], base))
    requires base == 16 && prefix == "" && s == "0" && |t| > 1 && t[0] in "xX" ==> !Numeric(t[1], 16)
    ensures var u := prefix + s + t;
      s + t == if base == 16 && |u| >= 3 && u[0] == '0' && (u[1] == 'x' || u[1] == 'X') && IsDigit(u[2], 16) then u[2..] else u
    ensures StartsWithDigit(s + t, base)
  {
    var u := prefix + s + t;
    DigitsOfEitherCase(digits[0]);
    if prefix != "" {
      assert u[2..] == s + t && u[2] == s[0];
    } else {
      assert u == s + t;
      if |s| > 1 { DigitsOfEitherCase(digits[1]); assert u[1] == s[1]; }
      if |s| == 1 && |t| > 1 { assert u[1] == t[0] && u[2] == t[1]; DigitIff(t[1], 16); }
    }
  }

  /** Without a digit behind blanks and sign there is no number. */
  lemma StoiOfNoNumeral(blanks: string, sign: string, t: string, base: nat)
    requires base == 10 || base == 16
    requires Blanks(blanks) && sign in ["", "+", "-"] && (t != "" ==> !Numeric(t[0], base))
    requires sign == "" && t != "" ==> !Blanks(t[..1]) && t[0] != '+' && t[0] != '-'
    ensures Stoi(blanks + sign + t, base) == None
  {
    hide ReadDigits, Trim;
    if t != "" { DigitIff(t[0], base); SpaceIff(t[0]); assert t[..1][0] == t[0]; }
    assert LOWER[..base][0] == '0';
    SignApart(blanks, sign, t);
  }

  /** What is printed spells the number, without a zero in front. */
  lemma {:induction false} PrintSpells(n: nat, base: nat) returns (digits: seq<nat>)
    requires 2 <= base <= 16
    ensures Spells(Print(n, base), digits, base) && Worth(digits, base) == n && (n > 0 ==> digits[0] > 0)
    ensures n == 0 ==> Print(n, base) == "0"
    decreases n
  {
    if n < base {
      digits := [n];
      if n < 8 { FirstDigits(n); } else { LastDigits(n); }
      assert Worth(digits[..0], base) == 0;
    } else {
      hide Print;
      var q, r := PrintOnce(n, base);
      var before := PrintSpells(q, base);
      digits := before + [r];
      assert digits[..|digits| - 1] == before;
      if r < 8 { FirstDigits(r); } else { LastDigits(r); }
    }
  }

  /** `to_string` of a number of either sign. */
  function Decimal(n: int): string { if n < 0 then "-" + Print(-n, 10) else Print(n, 10) }

  /** `stoi` undoes it for every signed number of 32 bits, and there is no blank in it. */
  lemma StoiOfDecimal(n: int)
    requires INT_MIN <= n <= INT_MAX
    ensures Stoi(Decimal(n), 10) == Some(n)
    ensures Decimal(n) != "" && forall i :: 0 <= i < |Decimal(n)| ==> IsDigit(Decimal(n)[i], 10) || Decimal(n)[i] == '-'
  {
    if n < 0 {
      var s := Print(-n, 10);
      ReadPrinted(-n, "", 10);
      assert s + "" == s && Decimal(n)[1..] == s && Trim(Decimal(n)) == Decimal(n);
    } else {
      StoiOfPrint("", n, "", 10);
      assert "" + Print(n, 10) + "" == Print(n, 10);
    }
  }
}
