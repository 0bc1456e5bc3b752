/** The helpers that requests and responses share. */
module HttpCommon {
  import opened Options
  import opened Sequences
  import opened Text

  const CRLF := "\r\n"
  const HEADER_END := "\r\n\r\n"

  /** `Undefined` stands for reading the first of no lines, which the code does not guard against. */
  datatype ParseResult = Success | Fail | Error | Undefined

  datatype HttpVersion = Unknown | Http1_0 | Http1_1

  function HttpVersionToStr(version: HttpVersion): string {
    match version
    case Http1_0 => "HTTP/1.0"
    case Http1_1 => "HTTP/1.1"
    case Unknown => ""
  }

  function GetHttpVersion(str: string): HttpVersion {
    if str == "HTTP/1.0" then Http1_0
    else if str == "HTTP/1.1" then Http1_1
    else Unknown
  }

  ghost predicate Lacks(s: string, cs: string) { forall i :: 0 <= i < |s| ==> s[i] !in cs }

  lemma VersionRecovered(v: HttpVersion)
    requires v != Unknown
    ensures GetHttpVersion(HttpVersionToStr(v)) == v && HttpVersionToStr(v) != "" && Lacks(HttpVersionToStr(v), " \r\n")
  {
    assert "HTTP/1.0"[7] != "HTTP/1.1"[7];
  }

  /** The two names there are, and no others. */
  lemma VersionIff(s: string)
    ensures GetHttpVersion(s) == Http1_0 <==> s == "HTTP/1.0"
    ensures GetHttpVersion(s) == Http1_1 <==> s == "HTTP/1.1"
    ensures HttpVersionToStr(Http1_0) == "HTTP/1.0" && HttpVersionToStr(Http1_1) == "HTTP/1.1"
  {
    assert "HTTP/1.0"[7] != "HTTP/1.1"[7];
  }

  // ----- Lines -----

  ghost predicate IsBreak(str: string, pos: nat) { pos == 0 || Match(str, CRLF, pos) }

  /** The lines from position `pos` on, which is the start or a line break, up to `bodyPos`. */
  function LinesFrom(str: string, pos: nat, bodyPos: nat): seq<string>
    requires IsBreak(str, pos)
    decreases |str| - pos
  {
    if pos >= bodyPos then []
    else
      var next := Find(str, CRLF, pos + 1);
      if next == NPOS then []
      else
        BreaksApart(str, pos, next);
        [str[if pos != 0 then pos + 2 else 0..next]] + LinesFrom(str, next, bodyPos)
  }

  lemma MatchOfBreak(str: string, i: nat)
    ensures Match(str, CRLF, i) <==> i + 2 <= |str| && str[i] == '\r' && str[i + 1] == '\n'
  {
    if i + 2 <= |str| { assert str[i..i + 2] == [str[i], str[i + 1]]; }
  }

  lemma MatchOfEnd(str: string, i: nat)
    ensures Match(str, HEADER_END, i) <==>
            i + 4 <= |str| && str[i] == '\r' && str[i + 1] == '\n' && str[i + 2] == '\r' && str[i + 3] == '\n'
  {
    if i + 4 <= |str| { assert str[i..i + 4] == [str[i], str[i + 1], str[i + 2], str[i + 3]]; }
  }

  lemma BreaksApart(str: string, pos: nat, next: nat)
    requires Match(str, CRLF, next) && pos < next && (pos == 0 || Match(str, CRLF, pos))
    ensures pos != 0 ==> pos + 2 <= next
  {
    MatchOfBreak(str, next);
    if pos != 0 { MatchOfBreak(str, pos); }
  }

  /** The position of the end of the header, and the lines before it. */
  function SplitHttp(str: string): Option<(nat, seq<string>)> {
    var bodyPos := Find(str, HEADER_END, 0);
    if bodyPos == NPOS then None else Some((bodyPos, LinesFrom(str, 0, bodyPos)))
  }

  method SplitHttpOfCRLF(str: string) returns (bodyPos: int, out: seq<string>)
    ensures SplitHttp(str) == if bodyPos == NPOS then None else Some((bodyPos, out))
  {
    out := [];
    bodyPos := Find(str, HEADER_END, 0);
    if bodyPos == NPOS {
      return;
    }
    var pos := 0;
    while pos < bodyPos
      invariant IsBreak(str, pos) && LinesFrom(str, 0, bodyPos) == out + LinesFrom(str, pos, bodyPos)
      decreases |str| - pos
    {
      var last := pos;
      var next := Find(str, CRLF, pos + 1);
      if next == NPOS {
        break;
      }
      BreaksApart(str, pos, next);
      pos := next;
      if 0 != last {
        last := last + 2;
      }
      out := out + [str[last..pos]];
    }
    assert LinesFrom(str, 0, bodyPos) == out;
  }

  /** Neither of the two characters that end a line. */
  ghost predicate OneLine(s: string) { forall i :: 0 <= i < |s| ==> s[i] != '\r' && s[i] != '\n' }

  ghost predicate Lines(ls: seq<string>) { ls != [] && forall i :: 0 <= i < |ls| ==> ls[i] != "" && OneLine(ls[i]) }

  function Joined(ls: seq<string>): string
    requires ls != []
  {
    if |ls| == 1 then ls[0] else ls[0] + CRLF + Joined(ls[1..])
  }

  /** A header made of these lines, with the empty line that ends it, and whatever follows. */
  function Headed(ls: seq<string>, body: string): string
    requires ls != []
  {
    Joined(ls) + HEADER_END + body
  }

  lemma HeadedParts(ls: seq<string>, body: string)
    requires ls != []
    ensures Headed(ls, body) == Joined(ls) + HEADER_END + body
  {
  }

  lemma HeadedMore(ls: seq<string>, body: string, more: string)
    requires ls != []
    ensures Headed(ls, body) + more == Headed(ls, body + more)
  {
  }

  lemma HeadedAgain(ls: seq<string>, body: string)
    requires |ls| > 1
    ensures Headed(ls, body) == (ls[0] + CRLF) + Headed(ls[1..], body)
    ensures |Joined(ls)| == |ls[0]| + 2 + |Joined(ls[1..])| && ls == [ls[0]] + ls[1..]
  {
    assert Joined(ls) + HEADER_END + body == (ls[0] + CRLF) + (Joined(ls[1..]) + HEADER_END + body);
  }

  /** What comes first after a line. */
  lemma AfterLine(ls: seq<string>, body: string)
    requires Lines(ls)
    ensures var s, n := Headed(ls, body), |ls[0]|;
      && n + 4 <= |s| && s[..n] == ls[0] && s[n] == '\r' && s[n + 1] == '\n'
      && (|ls| > 1 ==> s[n + 2] != '\r') && (|ls| == 1 ==> s[n + 2] == '\r' && s[n + 3] == '\n')
      && forall i :: 0 <= i < n ==> s[i] != '\r'
    ensures |ls| == 1 ==> |Joined(ls)| == |ls[0]|
  {
    var s, n := Headed(ls, body), |ls[0]|;
    if |ls| > 1 {
      HeadedAgain(ls, body);
      var t := Headed(ls[1..], body);
      assert ls[1..][0] == ls[1] && t[0] == ls[1][0];
    }
    assert forall i :: 0 <= i < n ==> s[i] == ls[0][i];
  }

  lemma {:induction false} HeaderEndsAt(ls: seq<string>, body: string)
    requires Lines(ls)
    ensures Find(Headed(ls, body), HEADER_END, 0) == |Joined(ls)|
    decreases |ls|
  {
    hide Headed, Joined, Match, Find;
    var s, n := Headed(ls, body), |ls[0]|;
    AfterLine(ls, body);
    NoMatchWithin(s, HEADER_END, 0, n);
    MatchOfEnd(s, n);
    if |ls| == 1 {
      FindIs(s, HEADER_END, 0, n);
    } else {
      HeaderEndsAt(ls[1..], body);
      HeadedAgain(ls, body);
      FindShifted(ls[0] + CRLF, Headed(ls[1..], body), HEADER_END, 0);
      MatchOfEnd(s, n + 1);
      FindIs(s, HEADER_END, 0, Find(s, HEADER_END, n + 2));
    }
  }

  /** The first line break after the start of a line that stands behind a prefix. */
  lemma NextBreak(pre: string, ls: seq<string>, body: string, from: nat)
    requires Lines(ls) && from <= |pre| && (from < |pre| ==> from + 1 == |pre| && pre[from] != '\r')
    ensures Find(pre + Headed(ls, body), CRLF, from) == |pre| + |ls[0]|
    ensures (pre + Headed(ls, body))[|pre|..|pre| + |ls[0]|] == ls[0]
  {
    hide Headed, Match, Find;
    var t, n := Headed(ls, body), |ls[0]|;
    var s := pre + t;
    AfterLine(ls, body);
    assert forall i :: |pre| <= i < |s| ==> s[i] == t[i - |pre|];
    NoMatchWithin(s, CRLF, from, |pre| + n);
    MatchOfBreak(s, |pre| + n);
    FindIs(s, CRLF, from, |pre| + n);
    assert s[|pre|..|pre| + n] == t[..n];
  }

  /** From the line break before them on, the lines are read one by one. */
  lemma {:induction false} LinesBehind(pre: string, ls: seq<string>, body: string)
    requires Lines(ls) && pre != ""
    ensures var s := pre + CRLF + Headed(ls, body);
      IsBreak(s, |pre|) && LinesFrom(s, |pre|, |pre| + 2 + |Joined(ls)|) == ls
    decreases |ls|
  {
    hide Headed, Joined, Match, Find;
    var s, n := pre + CRLF + Headed(ls, body), |ls[0]|;
    var next, bodyPos := |pre| + 2 + n, |pre| + 2 + |Joined(ls)|;
    AfterLine(ls, body);
    MatchOfBreak(s, |pre|);
    NextBreak(pre + CRLF, ls, body, |pre| + 1);
    if |ls| == 1 {
      assert LinesFrom(s, next, bodyPos) == [];
      assert ls == [ls[0]];
    } else {
      HeadedAgain(ls, body);
      LinesBehind(pre + CRLF + ls[0], ls[1..], body);
      assert s == (pre + CRLF + ls[0]) + CRLF + Headed(ls[1..], body);
    }
  }

  /** Splitting a header gives back its lines. */
  lemma SplitOfHeaded(ls: seq<string>, body: string)
    requires Lines(ls)
    ensures SplitHttp(Headed(ls, body)) == Some((|Joined(ls)|, ls))
  {
    hide Headed, Joined, Match, Find;
    var s, n := Headed(ls, body), |ls[0]|;
    HeaderEndsAt(ls, body);
    AfterLine(ls, body);
    NoMatchWithin(s, CRLF, 1, n);
    MatchOfBreak(s, n);
    FindIs(s, CRLF, 1, n);
    if |ls| > 1 {
      HeadedAgain(ls, body);
      LinesBehind(ls[0], ls[1..], body);
      assert LinesFrom(s, n, |Joined(ls)|) == ls[1..];
    } else {
      assert LinesFrom(s, n, n) == [] && ls == [ls[0]];
    }
    assert LinesFrom(s, 0, |Joined(ls)|) == [ls[0]] + LinesFrom(s, n, |Joined(ls)|) == ls;
  }

  lemma BodyOfHeaded(ls: seq<string>, body: string)
    requires ls != []
    ensures |Joined(ls)| + 4 <= |Headed(ls, body)| && Headed(ls, body)[|Joined(ls)| + 4..] == body
  {
  }

  /** A header has no lines, and so no first one to read, exactly when it ends at once. */
  lemma NoLinesIff(str: string)
    ensures SplitHttp(str).Some? && SplitHttp(str).value.1 == [] <==> HEADER_END <= str
  {
    hide Match, Find, LinesFrom;
    var bodyPos := Find(str, HEADER_END, 0);
    MatchAtStart(str, HEADER_END);
    if bodyPos > 0 {
      MatchOfEnd(str, bodyPos);
      MatchOfBreak(str, bodyPos);
      SomeLine(str, bodyPos);
    } else if bodyPos == 0 {
      NoLine(str);
    }
  }

  lemma MatchAtStart(str: string, pat: string)
    ensures Match(str, pat, 0) <==> pat <= str
  {
  }

  lemma NoLine(str: string)
    ensures LinesFrom(str, 0, 0) == []
  {
  }

  lemma SomeLine(str: string, bodyPos: nat)
    requires bodyPos > 0 && Match(str, CRLF, bodyPos)
    ensures LinesFrom(str, 0, bodyPos) != []
  {
    hide Match;
  }

  // ----- Words -----

  /** The words still to come: `last` is the last space met, `i` how many words are already cut off. */
  function WordsFrom(str: string, last: int, i: nat): seq<string>
    requires -1 <= last < |str| && i <= 2 && (i == 2 ==> last >= 0)
    decreases 2 - i, |str| - last
  {
    if i == 2 then if last == |str| - 1 then [] else [str[last + 1..]]
    else
      var pos := Find(str, " ", last + 1);
      if pos == last + 1 then WordsFrom(str, pos, i)
      else if pos == NPOS then []
      else [str[last + 1..pos]] + WordsFrom(str, pos, i + 1)
  }

  lemma WordsStep(str: string, last: int, i: nat)
    requires -1 <= last < |str| && i < 2
    ensures var pos := Find(str, " ", last + 1);
      WordsFrom(str, last, i) ==
        if pos == last + 1 then WordsFrom(str, pos, i)
        else if pos == NPOS then []
        else [str[last + 1..pos]] + WordsFrom(str, pos, i + 1)
  {
  }

  method SplitStrOfSpace(str: string) returns (rst: int, out: seq<string>)
    ensures out == WordsFrom(str, -1, 0) && (rst == 0 <==> |out| == 3)
  {
    hide Find, Match, WordsFrom;
    out := [];
    var pos, i, missing := -1, 0, false;
    while i < 2 && !missing
      invariant 0 <= i <= 2 && |out| == i && -1 <= pos < |str| && (i == 2 ==> pos >= 0)
      invariant WordsFrom(str, -1, 0) == if missing then out else out + WordsFrom(str, pos, i)
      invariant missing ==> i < 2
      decreases 2 - i, |str| - pos, !missing
    {
      WordsStep(str, pos, i);
      var next := Find(str, " ", pos + 1);
      if next == NPOS {
        missing := true;
      } else if next == pos + 1 {
        pos := next;
      } else {
        Associate(out, [str[pos + 1..next]], WordsFrom(str, next, i + 1));
        out := out + [str[pos + 1..next]];
        pos, i := next, i + 1;
      }
    }
    if missing || pos == |str| - 1 {
      if !missing { LastWord(str, pos); }
      rst := -1;
    } else {
      LastWord(str, pos);
      out := out + [str[pos + 1..]];
      rst := 0;
    }
  }

  lemma LastWord(str: string, pos: nat)
    requires pos < |str|
    ensures WordsFrom(str, pos, 2) == if pos == |str| - 1 then [] else [str[pos + 1..]]
  {
  }

  ghost predicate Without(s: string, c: char) { forall i :: 0 <= i < |s| ==> s[i] != c }

  lemma FindSpace(pre: string, a: string, rest: string)
    requires Without(a, ' ')
    ensures Find(pre + a + " " + rest, " ", |pre|) == |pre| + |a|
  {
    var s := pre + a + " " + rest;
    NoMatchWithin(s, " ", |pre|, |pre| + |a|);
    assert s[|pre| + |a|..|pre| + |a| + 1] == " ";
    FindIs(s, " ", |pre|, |pre| + |a|);
  }

  /** A word is cut off behind what was read before. */
  lemma WordCut(pre: string, a: string, rest: string, i: nat)
    requires a != "" && Without(a, ' ') && i < 2
    ensures WordsFrom(pre + a + " " + rest, |pre| - 1, i) == [a] + WordsFrom(pre + a + " " + rest, |pre| + |a|, i + 1)
  {
    hide Find, Match, WordsFrom;
    var s := pre + a + " " + rest;
    FindSpace(pre, a, rest);
    WordsStep(s, |pre| - 1, i);
    assert s[|pre|..|pre| + |a|] == a;
  }

  /** Three words are recovered; the third may hold spaces of its own. */
  lemma WordsOfThree(a: string, b: string, c: string)
    requires a != "" && b != "" && c != "" && Without(a, ' ') && Without(b, ' ')
    ensures WordsFrom(a + " " + b + " " + c, -1, 0) == [a, b, c]
  {
    hide WordsFrom, Without;
    var s := a + " " + b + " " + c;
    assert s == "" + a + " " + (b + " " + c) && s == (a + " ") + b + " " + c;
    WordCut("", a, b + " " + c, 0);
    WordCut(a + " ", b, c, 1);
    LastWord(s, |a| + 1 + |b|);
    assert s[|a| + |b| + 2..] == c;
  }

  /** Two words with any spaces before each, a space, and something more: the third word, which may begin with spaces. */
  ghost predicate ThreeWords(str: string, s1: string, a: string, s2: string, b: string, c: string) {
    && str == s1 + a + " " + s2 + b + " " + c && Spaces(s1) && Spaces(s2)
    && a != "" && b != "" && c != "" && Without(a, ' ') && Without(b, ' ')
  }

  ghost predicate Spaces(s: string) { forall i :: 0 <= i < |s| ==> s[i] == ' ' }

  lemma SpaceStep(str: string, last: int, i: nat)
    requires -1 <= last < |str| - 1 && i < 2 && str[last + 1] == ' '
    ensures WordsFrom(str, last, i) == WordsFrom(str, last + 1, i)
  {
    hide WordsFrom;
    WordsStep(str, last, i);
    assert str[last + 1..last + 2] == " ";
    FindIs(str, " ", last + 1, last + 1);
  }

  /** Spaces before a word are skipped. */
  lemma {:induction false} SpacesSkipped(str: string, last: int, n: nat, i: nat)
    requires -1 <= last && last + n < |str| && i < 2 && forall j :: last < j <= last + n ==> str[j] == ' '
    ensures WordsFrom(str, last, i) == WordsFrom(str, last + n, i)
    decreases n
  {
    hide WordsFrom;
    if n > 0 {
      SpacesSkipped(str, last, n - 1, i);
      SpaceStep(str, last + n - 1, i);
    }
  }

  lemma SpacedWordCut(pre: string, spaces: string, a: string, rest: string, i: nat)
    requires Spaces(spaces) && a != "" && Without(a, ' ') && i < 2
    ensures var s := pre + spaces + a + " " + rest;
      WordsFrom(s, |pre| - 1, i) == [a] + WordsFrom(s, |pre| + |spaces| + |a|, i + 1)
  {
    hide WordsFrom, Without;
    var s := pre + spaces + a + " " + rest;
    assert forall j :: |pre| <= j < |pre| + |spaces| ==> s[j] == spaces[j - |pre|];
    SpacesSkipped(s, |pre| - 1, |spaces|, i);
    WordCut(pre + spaces, a, rest, i);
  }

  lemma WordsOfThreeSpaced(str: string, s1: string, a: string, s2: string, b: string, c: string)
    requires ThreeWords(str, s1, a, s2, b, c)
    ensures WordsFrom(str, -1, 0) == [a, b, c]
  {
    hide WordsFrom, Without, Spaces;
    assert str == "" + s1 + a + " " + (s2 + b + " " + c) && str == (s1 + a + " ") + s2 + b + " " + c;
    SpacedWordCut("", s1, a, s2 + b + " " + c, 0);
    SpacedWordCut(s1 + a + " ", s2, b, c, 1);
    LastWord(str, |s1| + |a| + 1 + |s2| + |b|);
    assert str[|s1| + |a| + 1 + |s2| + |b| + 1..] == c;
  }

  /** Where one more word is cut off, it stands behind spaces only. */
  lemma {:induction false} WordFound(str: string, last: int, i: nat) returns (spaces: string, a: string, next: nat)
    requires -1 <= last < |str| && i < 2 && WordsFrom(str, last, i) != []
    ensures Spaces(spaces) && a != "" && Without(a, ' ') && next < |str|
    ensures str[..next + 1] == str[..last + 1] + spaces + a + " " && WordsFrom(str, last, i) == [a] + WordsFrom(str, next, i + 1)
    decreases |str| - last
  {
    hide WordsFrom;
    WordsStep(str, last, i);
    var pos := Find(str, " ", last + 1);
    assert str[pos..pos + 1] == " " && str[..pos + 1] == str[..pos] + " ";
    if pos == last + 1 {
      spaces, a, next := WordFound(str, pos, i);
      assert str[..last + 1] + " " + spaces + a + " " == str[..last + 1] + (" " + spaces) + a + " ";
      spaces := " " + spaces;
    } else {
      spaces, a, next := "", str[last + 1..pos], pos;
      forall j | 0 <= j < |a| ensures a[j] != ' ' {
        assert !Match(str, " ", last + 1 + j);
        assert str[last + 1 + j..last + 2 + j] == [a[j]];
      }
      assert str[..pos] == str[..last + 1] + spaces + a;
    }
  }

  /** A line has three words if and only if it is made up in this way. */
  lemma ThreeWordsIff(str: string)
    ensures |WordsFrom(str, -1, 0)| == 3 <==> exists s1, a, s2, b, c :: ThreeWords(str, s1, a, s2, b, c)
  {
    hide WordsFrom, Without, Spaces, ThreeWords;
    if s1, a, s2, b, c :| ThreeWords(str, s1, a, s2, b, c) { WordsOfThreeSpaced(str, s1, a, s2, b, c); }
    if |WordsFrom(str, -1, 0)| == 3 {
      NoWords(str);
      var s1, a, p := WordFound(str, -1, 0);
      var s2, b, q := WordFound(str, p, 1);
      LastWord(str, q);
      MadeUp(str, s1, a, s2, b, p, q);
    }
  }

  lemma NoWords(str: string)
    ensures str == "" ==> WordsFrom(str, -1, 0) == []
  {
  }

  lemma MadeUp(str: string, s1: string, a: string, s2: string, b: string, p: nat, q: nat)
    requires Spaces(s1) && Spaces(s2) && a != "" && b != "" && Without(a, ' ') && Without(b, ' ') && q < |str| - 1 && p <= q
    requires str[..p + 1] == str[..0] + s1 + a + " " && str[..q + 1] == str[..p + 1] + s2 + b + " "
    ensures ThreeWords(str, s1, a, s2, b, str[q + 1..])
  {
    assert str == str[..q + 1] + str[q + 1..] && str[..0] + s1 + a + " " == s1 + a + " ";
  }

  // ----- Header fields -----

  type Fields = map<string, string>

  const SEPARATOR := ": "

  /** The fields after one more header line; None when the line has no separator. */
  function WithHead(heads: Fields, line: string): Option<Fields> {
    var pos := Find(line, SEPARATOR, 0);
    if pos == NPOS then None else Some(heads[line[..pos] := line[pos + 2..]])
  }

  /** The fields after all lines, or up to the first bad one, and whether there was none. */
  function WithHeads(heads: Fields, lines: seq<string>): (bool, Fields)
    decreases |lines|
  {
    if lines == [] then (true, heads)
    else
      match WithHead(heads, lines[0])
      case None => (false, heads)
      case Some(more) => WithHeads(more, lines[1..])
  }

  method ReadHeads(base: Fields, lines: seq<string>) returns (ok: bool, heads: Fields)
    ensures (ok, heads) == WithHeads(base, lines)
  {
    var i := 0;
    ok, heads := true, base;
    assert lines[0..] == lines;
    while i < |lines| && ok
      invariant 0 <= i <= |lines|
      invariant if ok then WithHeads(heads, lines[i..]) == WithHeads(base, lines)
                else (ok, heads) == WithHeads(base, lines)
      decreases |lines| - i, ok
    {
      assert lines[i..][0] == lines[i] && lines[i..][1..] == lines[i + 1..];
      var more := WithHead(heads, lines[i]);
      if more == None {
        ok := false;
      } else {
        heads := more.value;
        i := i + 1;
      }
    }
  }

  function FieldLine(heads: Fields, key: string): string
    requires key in heads
  {
    key + SEPARATOR + heads[key]
  }

  function FieldLines(heads: Fields, keys: seq<string>): (ls: seq<string>)
    requires forall k :: k in keys ==> k in heads
    ensures |ls| == |keys| && forall i :: 0 <= i < |keys| ==> ls[i] == FieldLine(heads, keys[i])
  {
    if keys == [] then [] else [FieldLine(heads, keys[0])] + FieldLines(heads, keys[1..])
  }

  function Heads(heads: Fields, keys: seq<string>): string
    requires forall k :: k in keys ==> k in heads
    decreases |keys|
  {
    if keys == [] then "" else FieldLine(heads, keys[0]) + CRLF + Heads(heads, keys[1..])
  }

  method AppendHeads(data: string, heads: Fields, keys: seq<string>) returns (out: string)
    requires forall k :: k in keys ==> k in heads
    ensures out == data + Heads(heads, keys)
  {
    out := data;
    var i := 0;
    assert keys[0..] == keys;
    while i < |keys|
      invariant 0 <= i <= |keys| && out + Heads(heads, keys[i..]) == data + Heads(heads, keys)
    {
      ghost var was := out;
      out := out + keys[i];
      out := out + SEPARATOR;
      out := out + heads[keys[i]];
      out := out + CRLF;
      assert out == was + (FieldLine(heads, keys[i]) + CRLF);
      assert keys[i..][0] == keys[i] && keys[i..][1..] == keys[i + 1..];
      i := i + 1;
    }
    assert keys[|keys|..] == [];
  }

  lemma HeadOfLine(heads: Fields, key: string, value: string)
    requires forall i :: !Match(key, SEPARATOR, i)
    ensures WithHead(heads, key + SEPARATOR + value) == Some(heads[key := value])
  {
    hide Match, Find;
    var s := key + SEPARATOR + value;
    forall i | 0 <= i < |key| ensures !Match(s, SEPARATOR, i) {
      assert !Match(key, SEPARATOR, i);
      MatchOfSeparator(key, i);
      MatchOfSeparator(s, i);
    }
    MatchOfSeparator(s, |key|);
    assert s[..|key|] == key && s[|key| + 2..] == value;
    FindIs(s, SEPARATOR, 0, |key|);
  }

  lemma MatchOfSeparator(str: string, i: nat)
    ensures Match(str, SEPARATOR, i) <==> i + 2 <= |str| && str[i] == ':' && str[i + 1] == ' '
  {
    if i + 2 <= |str| { assert str[i..i + 2] == [str[i], str[i + 1]]; }
  }

  /** The fields of `m` under the given keys, put over those of `base`. */
  function Overlaid(base: Fields, m: Fields, keys: seq<string>): Fields
    requires forall k :: k in keys ==> k in m
    decreases |keys|
  {
    if keys == [] then base else Overlaid(base[keys[0] := m[keys[0]]], m, keys[1..])
  }

  lemma {:induction false} OverlaidAll(base: Fields, m: Fields, keys: seq<string>)
    requires forall k :: k in keys ==> k in m
    requires forall k :: k in base ==> k in m && base[k] == m[k]
    requires forall k :: k in m ==> k in base || k in keys
    ensures Overlaid(base, m, keys) == m
    decreases |keys|
  {
    if keys != [] {
      forall k | k in m && k !in base[keys[0] := m[keys[0]]] ensures k in keys[1..] {
        assert keys == [keys[0]] + keys[1..];
      }
      OverlaidAll(base[keys[0] := m[keys[0]]], m, keys[1..]);
    }
  }

  ghost predicate FieldsOk(heads: Fields) {
    forall k :: k in heads ==> OneLine(k) && OneLine(heads[k]) && forall i :: !Match(k, SEPARATOR, i)
  }

  lemma {:induction false} HeadsOfLines(base: Fields, heads: Fields, keys: seq<string>)
    requires FieldsOk(heads) && forall k :: k in keys ==> k in heads
    ensures WithHeads(base, FieldLines(heads, keys)) == (true, Overlaid(base, heads, keys))
    decreases |keys|
  {
    if keys != [] {
      HeadOfLine(base, keys[0], heads[keys[0]]);
      assert FieldLines(heads, keys)[1..] == FieldLines(heads, keys[1..]);
      HeadsOfLines(base[keys[0] := heads[keys[0]]], heads, keys[1..]);
    }
  }

  /** A line without a separator is bad: the fields before it are kept, and those after it are not read. */
  lemma {:induction false} HeadsUpToBad(base: Fields, heads: Fields, keys: seq<string>, bad: string, more: seq<string>)
    requires FieldsOk(heads) && (forall k :: k in keys ==> k in heads) && forall i :: !Match(bad, SEPARATOR, i)
    ensures WithHeads(base, FieldLines(heads, keys) + [bad] + more) == (false, Overlaid(base, heads, keys))
    decreases |keys|
  {
    var ls := FieldLines(heads, keys) + [bad] + more;
    if keys == [] {
      FindNone(bad, SEPARATOR, 0);
    } else {
      HeadOfLine(base, keys[0], heads[keys[0]]);
      assert ls[1..] == FieldLines(heads, keys[1..]) + [bad] + more;
      HeadsUpToBad(base[keys[0] := heads[keys[0]]], heads, keys[1..], bad, more);
    }
  }

  ghost predicate Separated(line: string) { exists j :: Match(line, SEPARATOR, j) }

  /** The lines are read to the end if and only if each holds a separator. */
  lemma {:induction false} HeadsReadIff(base: Fields, lines: seq<string>)
    ensures WithHeads(base, lines).0 <==> forall i :: 0 <= i < |lines| ==> Separated(lines[i])
    decreases |lines|
  {
    if lines != [] {
      hide Separated;
      SeparatedIff(lines[0]);
      var pos := Find(lines[0], SEPARATOR, 0);
      if pos != NPOS {
        HeadsReadIff(base[lines[0][..pos] := lines[0][pos + 2..]], lines[1..]);
        assert forall i :: 0 < i < |lines| ==> lines[i] == lines[1..][i - 1];
        assert forall i :: 0 <= i < |lines| - 1 ==> lines[1..][i] == lines[i + 1];
      }
    }
  }

  lemma SeparatedIff(line: string)
    ensures Find(line, SEPARATOR, 0) != NPOS <==> Separated(line)
  {
    if j :| Match(line, SEPARATOR, j) {
      if j < 0 { NoMatchBefore(line, SEPARATOR, j); }
    }
  }

  lemma NoMatchBefore(s: string, pat: string, j: int)
    requires j < 0
    ensures !Match(s, pat, j)
  {
  }

  lemma {:induction false} HeadsJoined(line: string, heads: Fields, keys: seq<string>)
    requires forall k :: k in keys ==> k in heads
    ensures line + CRLF + Heads(heads, keys) == Joined([line] + FieldLines(heads, keys)) + CRLF
    decreases |keys|
  {
    var ls := [line] + FieldLines(heads, keys);
    if keys != [] {
      var next := FieldLine(heads, keys[0]);
      HeadsJoined(next, heads, keys[1..]);
      assert ls[1..] == [next] + FieldLines(heads, keys[1..]);
      assert line + CRLF + (next + CRLF + Heads(heads, keys[1..])) == line + CRLF + Joined(ls[1..]) + CRLF;
    }
  }

  lemma FieldsInLines(line: string, heads: Fields, keys: seq<string>)
    requires line != "" && OneLine(line) && FieldsOk(heads) && forall k :: k in keys ==> k in heads
    ensures Lines([line] + FieldLines(heads, keys))
  {
    hide OneLine, FieldsOk, FieldLine;
    var ls := [line] + FieldLines(heads, keys);
    forall i | 0 < i < |ls| ensures ls[i] != "" && OneLine(ls[i]) { FieldOneLine(heads, keys[i - 1]); }
  }

  lemma EndOfHeader(lines: string, content: string)
    ensures lines + CRLF + CRLF + content == lines + HEADER_END + content
  {
  }

  lemma FieldOneLine(heads: Fields, key: string)
    requires FieldsOk(heads) && key in heads
    ensures FieldLine(heads, key) != "" && OneLine(FieldLine(heads, key))
  {
  }

  /** An order in which a map may be gone through. */
  ghost predicate OrderOf(keys: seq<string>, m: Fields) {
    (forall k :: k in keys <==> k in m) && forall i, j :: 0 <= i < j < |keys| ==> keys[i] != keys[j]
  }

  /** The keys in the order in which the map is gone through; any order will do. */
  method KeysInOrder(m: Fields) returns (keys: seq<string>)
    ensures OrderOf(keys, m)
  {
    keys := [];
    var rest := m.Keys;
    while rest != {}
      invariant rest <= m.Keys && (forall k :: k in keys <==> k in m && k !in rest)
      invariant forall i, j :: 0 <= i < j < |keys| ==> keys[i] != keys[j]
      decreases |rest|
    {
      var k :| k in rest;
      keys := keys + [k];
      rest := rest - {k};
    }
  }

  // ----- Content length -----

  /** The declared length, taken from either spelling of the field. */
  function DeclaredLength(heads: Fields): Option<string> {
    if "Content-Length" in heads then Some(heads["Content-Length"])
    else if "content-length" in heads then Some(heads["content-length"])
    else None
  }

  /** The header says how long the content is: in the field's first spelling, or in the other if that is missing. */
  ghost predicate SaysLength(heads: Fields, n: int) {
    if "Content-Length" in heads then Stoi(heads["Content-Length"], 10) == Some(n)
    else "content-length" in heads && Stoi(heads["content-length"], 10) == Some(n)
  }

  /** It says nothing of that, or nothing that is a number. */
  ghost predicate SaysNoLength(heads: Fields) {
    if "Content-Length" in heads then Stoi(heads["Content-Length"], 10) == None
    else "content-length" in heads ==> Stoi(heads["content-length"], 10) == None
  }

  /** It says that the content comes in chunks. */
  ghost predicate InChunks(heads: Fields) {
    && "Content-Length" !in heads && "content-length" !in heads
    && "Transfer-Encoding" in heads && heads["Transfer-Encoding"] == "chunked"
  }

  lemma LengthInRange(heads: Fields, n: int)
    requires SaysLength(heads, n)
    ensures INT_MIN <= n <= INT_MAX
  {
    hide Stoi;
    StoiInRange(if "Content-Length" in heads then heads["Content-Length"] else heads["content-length"], 10);
  }

  lemma SaysSomeLength(heads: Fields) returns (n: int)
    requires !SaysNoLength(heads)
    ensures SaysLength(heads, n)
  {
    hide Stoi;
    n := Stoi(if "Content-Length" in heads then heads["Content-Length"] else heads["content-length"], 10).value;
  }

  /** A signed number assigned to an unsigned one of 64 bits. */
  function ToUnsigned(v: int): nat { v % 0x1_0000_0000_0000_0000 }
}
