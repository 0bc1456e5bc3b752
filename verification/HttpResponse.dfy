/** Responses: printed, parsed, and taken apart when their body comes in chunks. */
module HttpResponse {
  import opened Options
  import opened Sequences
  import opened Text
  import opened HttpCommon

  /** What a response holds. */
  datatype Reply = Reply(version: HttpVersion, statusCode: int, statusInfo: string, heads: Fields, content: string)

  const BLANK := Reply(Http1_1, 200, "", map[], "")

  function StatusLine(m: Reply): string {
    HttpVersionToStr(m.version) + " " + Decimal(m.statusCode) + " " + m.statusInfo
  }

  /** A printed response, its header lines in the given order. */
  function Printed(m: Reply, order: seq<string>): string
    requires forall k :: k in order ==> k in m.heads
  {
    StatusLine(m) + CRLF + Heads(m.heads, order) + CRLF + m.content
  }

  // ----- Parsing -----

  /** The response after its first line, and whether that line was a good one. */
  function ParseStatus(m: Reply, str: string): (bool, Reply) {
    var words := WordsFrom(str, -1, 0);
    if |words| != 3 then (false, m)
    else
      var seen := m.(version := GetHttpVersion(words[0]));
      match Stoi(words[1], 10)
      case None => (false, seen)
      case Some(code) => (true, seen.(statusCode := code, statusInfo := words[2]))
  }

  function Unpacked(m: Reply, data: string): (ParseResult, Reply) {
    match SplitHttp(data)
    case None => (Fail, m)
    case Some((pos, lines)) =>
      if lines == [] then (Undefined, m)
      else
        var status := ParseStatus(m, lines[0]);
        if !status.0 then (Error, status.1)
        else
          var fields := WithHeads(status.1.heads, lines[1..]);
          if !fields.0 then (Error, status.1.(heads := fields.1))
          else (Success, status.1.(heads := fields.1, content := if pos + 4 <= |data| then data[pos + 4..] else ""))
  }

  predicate IsChunked(heads: Fields) { "Transfer-Encoding" in heads && heads["Transfer-Encoding"] == "chunked" }

  /** How far a response with this header has come, and its content after that. */
  function Completed(m: Reply): (ParseResult, string) {
    match DeclaredLength(m.heads)
    case Some(text) =>
      var size := Stoi(text, 10);
      (if size.Some? && ToUnsigned(size.value) == |m.content| then Success else Fail, m.content)
    case None => if IsChunked(m.heads) then Dechunked(m.content) else (Fail, m.content)
  }

  function UnpackedAndCompleted(m: Reply, data: string): (ParseResult, Reply) {
    var r := Unpacked(m, data);
    match r.0
    case Success => (Completed(r.1).0, r.1.(content := Completed(r.1).1))
    case Undefined => r
    case _ => (Fail, r.1)
  }

  // ----- Chunks -----

  /** One turn of the decoder's loop: it is over, or goes on at a position with one more piece. */
  datatype Turn = Over(r: ParseResult) | Next(p: nat, piece: string)

  function TurnAt(content: string, p1: nat): (t: Turn)
    requires p1 <= |content|
    ensures t.Next? ==> t.p <= |content|
    ensures t != Over(Undefined)
  {
    var p2 := Find(content, CRLF, p1 + 1);
    if p2 == NPOS then Over(Fail)
    else
      match Stoi(content[p1..p2], 16)
      case None => Over(Error)
      case Some(v) =>
        var num, p := ToUnsigned(v), ToUnsigned(p2 + 2 + v);
        if num == 0 then Over(Success)
        else if p > |content| then Over(Fail)
        else Next(p, content[p2 + 2..if p2 + 2 + num > |content| then |content| else p2 + 2 + num])
  }

  ghost function UpTo(n: nat): (r: set<nat>)
    ensures forall i: nat :: i in r <==> i <= n
  {
    if n == 0 then {0} else UpTo(n - 1) + {n}
  }

  /** The loop from position `p1` on. A negative size takes it back; at a position it has `seen` before it
      goes round for ever, which `Undefined` stands for. */
  function DechunkedFrom(content: string, p1: nat, temp: string, seen: set<nat>): (r: (ParseResult, string))
    requires p1 <= |content|
    decreases UpTo(|content|) - seen
  {
    if p1 in seen then (Undefined, content)
    else
      match TurnAt(content, p1)
      case Over(r) => (r, if r == Success then temp else content)
      case Next(p, piece) => DechunkedFrom(content, p, temp + piece, seen + {p1})
  }

  function Dechunked(content: string): (ParseResult, string) { DechunkedFrom(content, 0, "", {}) }

  class Response {
    var version: HttpVersion
    var statusCode: int
    var statusInfo: string
    var heads: Fields
    var content: string

    function State(): Reply
      reads this
    {
      Reply(version, statusCode, statusInfo, heads, content)
    }

    constructor ()
      ensures State() == BLANK
    {
      version, statusCode, statusInfo, heads, content := Http1_1, 200, "", map[], "";
    }

    /** Prints the response, its fields in whatever order they are gone through. */
    method Pack() returns (data: string)
      ensures exists order :: OrderOf(order, heads) && data == Printed(State(), order)
    {
      hide Heads, HttpVersionToStr, Decimal;
      var keys := KeysInOrder(heads);
      data := HttpVersionToStr(version);
      data := data + " ";
      data := data + Decimal(statusCode);
      data := data + " ";
      data := data + statusInfo;
      data := data + CRLF;
      data := AppendHeads(data, heads, keys);
      data := data + CRLF;
      data := data + content;
      assert data == Printed(State(), keys);
    }

    method UnpackStatus(str: string) returns (ok: bool)
      modifies this
      ensures (ok, State()) == ParseStatus(old(State()), str)
    {
      var rst, out := SplitStrOfSpace(str);
      if |out| != 3 {
        return false;
      }
      version := GetHttpVersion(out[0]);
      var code := Stoi(out[1], 10);
      if code == None {
        return false;
      }
      statusCode := code.value;
      statusInfo := out[2];
      ok := true;
    }

    method Unpack(data: string) returns (r: ParseResult)
      modifies this
      ensures (r, State()) == Unpacked(old(State()), data)
    {
      hide ParseStatus, WithHeads;
      var pos, headList := SplitHttpOfCRLF(data);
      if pos == NPOS {
        r := Fail;
      } else if headList == [] {
        r := Undefined;
      } else {
        var ok := UnpackStatus(headList[0]);
        if ok {
          ok, heads := ReadHeads(heads, headList[1..]);
        }
        if !ok {
          r := Error;
        } else {
          content := if pos + 4 <= |data| then data[pos + 4..] else "";
          r := Success;
        }
      }
    }

    /** The decoder's loop. The set of positions met is the model's own: it tells when the loop never ends. */
    method IsCompletedChunked() returns (r: ParseResult)
      modifies this`content
      ensures (r, content) == Dechunked(old(content))
    {
      hide Find, Match, Stoi;
      var temp, over := "", false;
      var p1: nat, seen: set<nat> := 0, {};
      r := Undefined;
      while !over && p1 !in seen
        invariant p1 <= |content|
        invariant over ==> r != Undefined && Dechunked(content) == (r, if r == Success then temp else content)
        invariant !over ==> r == Undefined && Dechunked(content) == DechunkedFrom(content, p1, temp, seen)
        decreases !over, UpTo(|content|) - seen
      {
        seen := seen + {p1};
        var p2 := Find(content, CRLF, p1 + 1);
        if p2 == NPOS {
          over, r := true, Fail;
        } else {
          var size := Stoi(content[p1..p2], 16);
          if size == None {
            over, r := true, Error;
          } else {
            var num := ToUnsigned(size.value);
            if num == 0 {
              over, r := true, Success;
            } else {
              p1 := ToUnsigned(p2 + 2 + size.value);
              if p1 > |content| {
                over, r, p1 := true, Fail, 0;
              } else {
                temp := temp + content[p2 + 2..if p2 + 2 + num > |content| then |content| else p2 + 2 + num];
              }
            }
          }
        }
      }
      if r == Success {
        content := temp;
      }
    }

    method UnpackAndCompleted(data: string) returns (r: ParseResult)
      modifies this
      ensures (r, State()) == UnpackedAndCompleted(old(State()), data)
    {
      hide Unpacked, Dechunked, Stoi;
      r := Unpack(data);
      if r == Success {
        var length := DeclaredLength(heads);
        if length != None {
          var size := Stoi(length.value, 10);
          r := if size.Some? && ToUnsigned(size.value) == |content| then Success else Fail;
        } else if IsChunked(heads) {
          r := IsCompletedChunked();
        } else {
          r := Fail;
        }
      } else if r == Error {
        r := Fail;
      }
    }
  }

  // ----- What is not guarded against -----

  /** Reading the first of no lines is met exactly by what begins with the end of a header. */
  lemma UndefinedIff(m: Reply, data: string)
    ensures Unpacked(m, data).0 == Undefined <==> HEADER_END <= data
  {
    hide SplitHttp, ParseStatus, WithHeads;
    NoLinesIff(data);
  }

  // ----- Parsing undoes printing -----

  /** What the line format can carry; the content may be anything at all. */
  ghost predicate Printable(m: Reply) {
    && m.version != Unknown && INT_MIN <= m.statusCode <= INT_MAX
    && m.statusInfo != "" && OneLine(m.statusInfo) && FieldsOk(m.heads)
  }

  lemma CodeRecovered(code: int)
    requires INT_MIN <= code <= INT_MAX
    ensures Stoi(Decimal(code), 10) == Some(code) && Decimal(code) != "" && Lacks(Decimal(code), " \r\n")
  {
    hide Stoi, Decimal;
    StoiOfDecimal(code);
  }

  lemma StatusRecovered(m: Reply, got: Reply)
    requires Printable(m)
    ensures ParseStatus(got, StatusLine(m)) ==
            (true, got.(version := m.version, statusCode := m.statusCode, statusInfo := m.statusInfo))
    ensures StatusLine(m) != "" && OneLine(StatusLine(m))
  {
    hide Stoi, Decimal, HttpVersionToStr, GetHttpVersion, WordsFrom;
    VersionRecovered(m.version);
    CodeRecovered(m.statusCode);
    WordsOfThree(HttpVersionToStr(m.version), Decimal(m.statusCode), m.statusInfo);
  }

  lemma PrintedInLines(m: Reply, order: seq<string>)
    requires Printable(m) && OrderOf(order, m.heads)
    ensures Lines([StatusLine(m)] + FieldLines(m.heads, order))
    ensures Printed(m, order) == Headed([StatusLine(m)] + FieldLines(m.heads, order), m.content)
  {
    hide StatusLine, Heads, Joined, ParseStatus;
    StatusRecovered(m, BLANK);
    FieldsInLines(StatusLine(m), m.heads, order);
    HeadsJoined(StatusLine(m), m.heads, order);
    EndOfHeader(Joined([StatusLine(m)] + FieldLines(m.heads, order)), m.content);
  }

  /** Parsing recovers every response the format can carry, whatever order its fields are printed in. */
  lemma RoundTrip(m: Reply, order: seq<string>)
    requires Printable(m) && OrderOf(order, m.heads)
    ensures Unpacked(BLANK, Printed(m, order)) == (Success, m)
  {
    hide StatusLine, ParseStatus, Headed, Joined, WithHeads, Find, Printed;
    var ls := [StatusLine(m)] + FieldLines(m.heads, order);
    PrintedInLines(m, order);
    SplitOfHeaded(ls, m.content);
    BodyOfHeaded(ls, m.content);
    StatusRecovered(m, BLANK);
    assert ls[1..] == FieldLines(m.heads, order);
    HeadsOfLines(map[], m.heads, order);
    OverlaidAll(map[], m.heads, order);
  }

  /** Parsing a part of a response: nothing until the header is there, and from then on the content so far. */
  lemma PrefixUnpacked(m: Reply, order: seq<string>, n: nat)
    requires Printable(m) && OrderOf(order, m.heads) && n <= |Printed(m, order)|
    ensures |m.content| <= |Printed(m, order)|
    ensures var h := |Printed(m, order)| - |m.content|;
      Unpacked(BLANK, Printed(m, order)[..n]) ==
        if n < h then (Fail, BLANK) else (Success, m.(content := m.content[..n - h]))
  {
    hide StatusLine, ParseStatus, Joined, WithHeads, Find, Printed, LinesFrom;
    var s, ls := Printed(m, order), [StatusLine(m)] + FieldLines(m.heads, order);
    var h := |Joined(ls)|;
    PrintedInLines(m, order);
    HeaderEndsAt(ls, m.content);
    FindInPrefix(s, HEADER_END, n);
    if n >= h + 4 {
      var part := m.(content := m.content[..n - h - 4]);
      PrintedInLines(part, order);
      SameLine(m, part);
      assert s[..n] == Joined(ls) + HEADER_END + part.content;
      RoundTrip(part, order);
    }
  }

  lemma SameLine(m: Reply, part: Reply)
    requires part == m.(content := part.content)
    ensures StatusLine(part) == StatusLine(m)
  {
  }

  /** The declared length is that of the content. */
  ghost predicate LengthDeclared(m: Reply) {
    SaysLength(m.heads, |m.content|)
  }

  /** With a declared length, a part of a response fails and the whole succeeds. */
  lemma DeclaredReply(m: Reply, order: seq<string>, n: nat)
    requires Printable(m) && OrderOf(order, m.heads) && LengthDeclared(m) && n <= |Printed(m, order)|
    ensures var r := UnpackedAndCompleted(BLANK, Printed(m, order)[..n]);
      if n == |Printed(m, order)| then r == (Success, m) else r.0 == Fail
  {
    hide Unpacked, Printed, Stoi, Dechunked;
    LengthInRange(m.heads, |m.content|);
    if n == |Printed(m, order)| {
      assert Printed(m, order)[..n] == Printed(m, order);
      RoundTrip(m, order);
    } else {
      PrefixUnpacked(m, order, n);
    }
  }

  /** Neither a length that is a number is declared, nor does the content come in chunks. */
  ghost predicate Unbounded(m: Reply) {
    SaysNoLength(m.heads) && !InChunks(m.heads)
  }

  /** Such a response is never complete, however much content has come. */
  lemma UnboundedNeverSucceeds(m: Reply, order: seq<string>, n: nat)
    requires Printable(m) && OrderOf(order, m.heads) && Unbounded(m) && n <= |Printed(m, order)|
    ensures UnpackedAndCompleted(BLANK, Printed(m, order)[..n]).0 == Fail
  {
    hide Unpacked, Printed, Stoi, Dechunked;
    if n == |Printed(m, order)| {
      assert Printed(m, order)[..n] == Printed(m, order);
      RoundTrip(m, order);
    } else {
      PrefixUnpacked(m, order, n);
    }
  }

  /** Only the whole of a response that is not chunked succeeds, if and only if its length is declared. */
  lemma OnlyWholeSucceedsIff(m: Reply, order: seq<string>)
    requires Printable(m) && OrderOf(order, m.heads) && |m.content| <= INT_MAX
    requires !InChunks(m.heads)
    ensures var s := Printed(m, order);
      && (forall n :: 0 <= n < |s| ==> UnpackedAndCompleted(BLANK, s[..n]).0 == Fail)
      && UnpackedAndCompleted(BLANK, s) == (Success, m)
      <==> LengthDeclared(m)
  {
    hide Unpacked, Printed, Stoi, Dechunked;
    var s := Printed(m, order);
    if LengthDeclared(m) {
      forall n | 0 <= n < |s| ensures UnpackedAndCompleted(BLANK, s[..n]).0 == Fail { DeclaredReply(m, order, n); }
      DeclaredReply(m, order, |s|);
      assert s[..|s|] == s;
    } else {
      RoundTrip(m, order);
      if !SaysNoLength(m.heads) {
        var n := SaysSomeLength(m.heads);
        LengthInRange(m.heads, n);
      }
    }
  }

  /**
    A response is complete, whatever part of its content has come, if and only if that part is as long as the header
    says; one in chunks aside.
   */
  lemma ArrivedCompleteIff(m: Reply, order: seq<string>)
    requires Printable(m) && OrderOf(order, m.heads) && !InChunks(m.heads) && |m.content| <= INT_MAX
    ensures UnpackedAndCompleted(BLANK, Printed(m, order)) == (if SaysLength(m.heads, |m.content|) then Success else Fail, m)
  {
    hide Unpacked, Printed, Stoi, Dechunked;
    RoundTrip(m, order);
    if !SaysNoLength(m.heads) {
      var n := SaysSomeLength(m.heads);
      LengthInRange(m.heads, n);
    }
  }

  // ----- Headers that are none -----

  /** A version or any other word, a number with anything behind it, and a reason. */
  ghost predicate StatusLineOk(line: string) {
    exists s1, a, s2, b, c :: ThreeWords(line, s1, a, s2, b, c) && Stoi(b, 10).Some?
  }

  /** The three words of a status line, and what they make of the response. */
  lemma StatusOfThree(got: Reply, str: string, s1: string, a: string, s2: string, b: string, c: string)
    requires ThreeWords(str, s1, a, s2, b, c)
    ensures ParseStatus(got, str) ==
            var seen := got.(version := GetHttpVersion(a));
            if Stoi(b, 10).Some? then (true, seen.(statusCode := Stoi(b, 10).value, statusInfo := c)) else (false, seen)
  {
    hide GetHttpVersion, WordsFrom, ThreeWords, Stoi;
    WordsOfThreeSpaced(str, s1, a, s2, b, c);
  }

  lemma StatusOkIff(got: Reply, line: string)
    ensures ParseStatus(got, line).0 <==> StatusLineOk(line)
  {
    hide GetHttpVersion, WordsFrom, ThreeWords, Stoi;
    ThreeWordsIff(line);
    if |WordsFrom(line, -1, 0)| == 3 {
      var s1, a, s2, b, c :| ThreeWords(line, s1, a, s2, b, c);
      StatusOfThree(got, line, s1, a, s2, b, c);
      if StatusLineOk(line) {
        var t1, x, t2, y, z :| ThreeWords(line, t1, x, t2, y, z) && Stoi(y, 10).Some?;
        StatusOfThree(got, line, t1, x, t2, y, z);
      }
    }
  }

  ghost predicate Malformed(ls: seq<string>)
    requires ls != []
  {
    !StatusLineOk(ls[0]) || exists i :: 0 < i < |ls| && !Separated(ls[i])
  }

  /** Just such headers are errors, whatever stands behind them. */
  lemma ErrorIffMalformed(ls: seq<string>, body: string)
    requires Lines(ls)
    ensures Unpacked(BLANK, Headed(ls, body)).0 == if Malformed(ls) then Error else Success
  {
    hide ParseStatus, Headed, Joined, WithHeads, Find, StatusLineOk, Separated;
    SplitOfHeaded(ls, body);
    StatusOkIff(BLANK, ls[0]);
    HeadsReadIff(ParseStatus(BLANK, ls[0]).1.heads, ls[1..]);
    assert forall i :: 0 < i < |ls| ==> ls[i] == ls[1..][i - 1];
    assert forall i :: 0 <= i < |ls| - 1 ==> ls[1..][i] == ls[i + 1];
  }

  /** A response without a reason, which a new one is, is printed as a header that cannot be read. */
  lemma NoReasonIsError(m: Reply, order: seq<string>)
    requires m.version != Unknown && INT_MIN <= m.statusCode <= INT_MAX && FieldsOk(m.heads) && OrderOf(order, m.heads)
    requires m.statusInfo == ""
    ensures Unpacked(BLANK, Printed(m, order)).0 == Error
  {
    hide Heads, Joined, ParseStatus, Headed, Malformed, Unpacked, OneLine, FieldsOk;
    var line := StatusLine(m);
    var ls := [line] + FieldLines(m.heads, order);
    NoReasonLine(m);
    FieldsInLines(line, m.heads, order);
    HeadsJoined(line, m.heads, order);
    EndOfHeader(Joined(ls), m.content);
    assert Headed(ls, m.content) == Joined(ls) + HEADER_END + m.content by { HeadedParts(ls, m.content); }
    StatusOkIff(BLANK, line);
    BadFirstLine(ls);
    ErrorIffMalformed(ls, m.content);
  }

  lemma BadFirstLine(ls: seq<string>)
    requires ls != [] && !StatusLineOk(ls[0])
    ensures Malformed(ls)
  {
  }

  lemma NoReasonLine(m: Reply)
    requires m.version != Unknown && INT_MIN <= m.statusCode <= INT_MAX && m.statusInfo == ""
    ensures StatusLine(m) != "" && OneLine(StatusLine(m)) && !ParseStatus(BLANK, StatusLine(m)).0
  {
    hide Decimal, HttpVersionToStr, GetHttpVersion, Stoi, WordsFrom, Find, Match;
    var a, b := HttpVersionToStr(m.version), Decimal(m.statusCode);
    var s := a + " " + b + " " + "";
    VersionRecovered(m.version);
    CodeRecovered(m.statusCode);
    assert StatusLine(m) == s && s == "" + a + " " + (b + " " + "") && s == (a + " ") + b + " " + "";
    WordCut("", a, b + " " + "", 0);
    WordCut(a + " ", b, "", 1);
    LastWord(s, |s| - 1);
  }

  /** A new response as it is sent. */
  lemma BlankOnTheWire()
    ensures Printed(BLANK, []) == "HTTP/1.1 200 \r\n\r\n"
  {
    PrintedHundreds();
    assert StatusLine(BLANK) == "HTTP/1.1" + " " + "200" + " " + "";
  }

  lemma PrintedHundreds()
    ensures Decimal(200) == "200"
  {
    assert Print(2, 10) == "2" && Print(20, 10) == "20" && Print(200, 10) == "200";
  }

  /** A response as it is sent, with one field. */
  lemma OnTheWire(m: Reply, field: string)
    requires field in m.heads && m.version == Http1_1
    ensures Printed(m, [field]) ==
            "HTTP/1.1 " + Decimal(m.statusCode) + " " + m.statusInfo + "\r\n" + field + ": " + m.heads[field] + "\r\n\r\n" + m.content
  {
    hide Decimal;
    assert [field][1..] == [];
    assert Heads(m.heads, [field]) == field + ": " + m.heads[field] + "\r\n";
    assert StatusLine(m) == "HTTP/1.1 " + Decimal(m.statusCode) + " " + m.statusInfo;
  }

  // ----- Chunked bodies -----

  /** A chunk: its size line, which may carry an extension behind the digits, and its data. */
  datatype Chunk = Chunk(size: string, data: string)

  ghost predicate SizeLine(size: string, n: nat) { size != "" && OneLine(size) && Stoi(size, 16) == Some(n) }

  ghost predicate ChunksOk(chunks: seq<Chunk>) {
    forall i :: 0 <= i < |chunks| ==> chunks[i].data != "" && SizeLine(chunks[i].size, |chunks[i].data|)
  }

  /** The chunks, and the last one of size zero. */
  function Encoded(chunks: seq<Chunk>, zero: string): string
    decreases |chunks|
  {
    if chunks == [] then zero + CRLF
    else chunks[0].size + CRLF + (chunks[0].data + CRLF + Encoded(chunks[1..], zero))
  }

  function Payload(chunks: seq<Chunk>): string
    decreases |chunks|
  {
    if chunks == [] then "" else chunks[0].data + Payload(chunks[1..])
  }

  /** A size printed in hexadecimal is a size line, whatever extension stands behind it. */
  lemma PrintedSize(n: nat, extension: string)
    requires n <= INT_MAX && OneLine(extension) && (extension != "" ==> extension[0] == ';')
    ensures SizeLine(Print(n, 16) + extension, n)
  {
    hide Stoi, Print;
    StoiOfPrint("", n, extension, 16);
    assert "" + Print(n, 16) + extension == Print(n, 16) + extension;
  }

  /** So is one in digits of either case, behind the prefix of a hexadecimal number or without it. */
  lemma SpelledSize(prefix: string, s: string, digits: seq<nat>, extension: string)
    requires Prefix(prefix, 16) && s != "" && Spells(s, digits, 16) && Worth(digits, 16) <= INT_MAX
    requires OneLine(extension) && (extension != "" ==> extension[0] == ';')
    ensures SizeLine(prefix + s + extension, Worth(digits, 16))
  {
    hide Stoi, Worth;
    StoiOfNumeral("", "", prefix, s, digits, extension, 16);
    assert "" + "" + prefix + s + extension == prefix + s + extension;
    forall i | 0 <= i < |s| ensures s[i] != '\r' && s[i] != '\n' {
      DigitsOfEitherCase(digits[i]);
      SpaceIff(s[i]);
    }
  }

  /** What stands before a size line: nothing at the start, and after that the end of the last chunk. */
  ghost predicate Lead(pre: string, lead: string) { lead == CRLF || (pre == "" && lead == "") }

  lemma StoiBehindLead(lead: string, size: string)
    requires lead == CRLF || lead == ""
    ensures Stoi(lead + size, 16) == Stoi(size, 16)
  {
    if lead == CRLF {
      assert (lead + size)[1..] == "\n" + size && ("\n" + size)[1..] == size;
      assert Trim(lead + size) == Trim("\n" + size) == Trim(size);
    } else {
      assert lead + size == size;
    }
  }

  /** The line break that ends a size line is the one the loop finds. */
  lemma LineFound(pre: string, lead: string, size: string, after: string)
    requires Lead(pre, lead) && size != "" && OneLine(size)
    ensures var s, p2 := pre + lead + size + CRLF + after, |pre| + |lead| + |size|;
      && Find(s, CRLF, |pre| + 1) == p2 && p2 + 2 + |after| == |s|
      && s[|pre|..p2] == lead + size && s[p2 + 2..] == after
  {
    hide Find, Match;
    var s, p2 := pre + lead + size + CRLF + after, |pre| + |lead| + |size|;
    var start := |pre| + |lead|;
    assert forall i :: start <= i < p2 ==> s[i] == size[i - start];
    assert lead == CRLF ==> s[|pre| + 1] == '\n';
    NoMatchWithin(s, CRLF, |pre| + 1, p2);
    MatchOfBreak(s, p2);
    FindIs(s, CRLF, |pre| + 1, p2);
    assert s[|pre|..p2] == lead + size && s[p2 + 2..] == after;
  }

  /** The longest string there can be; positions in it do not wrap around. */
  const MAX_SIZE := 0x7fff_ffff_ffff_ffff

  /** One turn over a size line. */
  lemma TurnOverLine(pre: string, lead: string, size: string, n: nat, after: string)
    requires Lead(pre, lead) && SizeLine(size, n)
    requires |pre + lead + size + CRLF + after| <= MAX_SIZE
    ensures TurnAt(pre + lead + size + CRLF + after, |pre|) ==
            if n == 0 then Over(Success)
            else if n > |after| then Over(Fail)
            else Next(|pre| + |lead| + |size| + 2 + n, after[..n])
  {
    hide Find, Match, Stoi, OneLine;
    LineFound(pre, lead, size, after);
    StoiBehindLead(lead, size);
    StoiInRange(size, 16);
    TurnAfterLine(pre + lead + size + CRLF + after, |pre|, n);
  }

  lemma TurnAfterLine(s: string, p1: nat, n: nat)
    requires p1 <= |s| <= MAX_SIZE && n <= INT_MAX
    requires var p2 := Find(s, CRLF, p1 + 1); p2 != NPOS && Stoi(s[p1..p2], 16) == Some(n)
    ensures var p2 := Find(s, CRLF, p1 + 1);
      TurnAt(s, p1) ==
        if n == 0 then Over(Success)
        else if n > |s[p2 + 2..]| then Over(Fail)
        else Next(p2 + 2 + n, s[p2 + 2..][..n])
  {
    hide Match, Stoi;
    var p2 := Find(s, CRLF, p1 + 1);
    if p2 + 2 + n <= |s| { assert s[p2 + 2..p2 + 2 + n] == s[p2 + 2..][..n]; }
  }

  /** A chunk's line, its data, and the rest: seen from before the chunk and from behind it. */
  lemma OneChunk(pre: string, lead: string, chunks: seq<Chunk>, zero: string, rest: string)
    requires chunks != []
    ensures var c, tail := chunks[0], CRLF + Encoded(chunks[1..], zero) + rest;
      && pre + lead + Encoded(chunks, zero) + rest == pre + lead + c.size + CRLF + (c.data + tail)
      && pre + lead + c.size + CRLF + (c.data + tail) == (pre + lead + c.size + CRLF + c.data) + tail
      && (c.data + tail)[..|c.data|] == c.data
  {
    var c, tail := chunks[0], CRLF + Encoded(chunks[1..], zero) + rest;
    assert c.data + CRLF + Encoded(chunks[1..], zero) + rest == c.data + tail;
    Regroup(pre + lead, c.size + CRLF, c.data + CRLF + Encoded(chunks[1..], zero), rest);
  }

  lemma {:induction false} DecodedFrom(
    pre: string, lead: string, chunks: seq<Chunk>, zero: string, rest: string, temp: string, seen: set<nat>)
    requires Lead(pre, lead) && ChunksOk(chunks) && SizeLine(zero, 0) && forall p :: p in seen ==> p < |pre|
    requires |pre + lead + Encoded(chunks, zero) + rest| <= MAX_SIZE
    ensures DechunkedFrom(pre + lead + Encoded(chunks, zero) + rest, |pre|, temp, seen) == (Success, temp + Payload(chunks))
    decreases |chunks|
  {
    hide TurnAt, SizeLine;
    var s := pre + lead + Encoded(chunks, zero) + rest;
    if chunks == [] {
      assert s == pre + lead + zero + CRLF + rest;
      TurnOverLine(pre, lead, zero, 0, rest);
      assert temp + Payload(chunks) == temp;
    } else {
      hide Encoded, Payload;
      var c, tail := chunks[0], CRLF + Encoded(chunks[1..], zero) + rest;
      OneChunk(pre, lead, chunks, zero, rest);
      TurnOverLine(pre, lead, c.size, |c.data|, c.data + tail);
      var past := pre + lead + c.size + CRLF + c.data;
      assert past + CRLF + Encoded(chunks[1..], zero) + rest == past + tail;
      DecodedFrom(past, CRLF, chunks[1..], zero, rest, temp + c.data, seen + {|pre|});
      PayloadOnce(temp, chunks);
    }
  }

  lemma PayloadOnce(temp: string, chunks: seq<Chunk>)
    requires chunks != []
    ensures temp + Payload(chunks) == temp + chunks[0].data + Payload(chunks[1..])
  {
  }

  /** Decoding recovers the chunks' data, whatever follows the chunk of size zero. */
  lemma DechunkedOfEncoded(chunks: seq<Chunk>, zero: string, rest: string)
    requires ChunksOk(chunks) && SizeLine(zero, 0) && |Encoded(chunks, zero) + rest| <= MAX_SIZE
    ensures Dechunked(Encoded(chunks, zero) + rest) == (Success, Payload(chunks))
  {
    hide Encoded, DechunkedFrom;
    assert "" + "" + Encoded(chunks, zero) + rest == Encoded(chunks, zero) + rest;
    DecodedFrom("", "", chunks, zero, rest, "", {});
    assert "" + Payload(chunks) == Payload(chunks);
  }

  /** Without the end of the size line the loop stops at once. */
  lemma LineCut(pre: string, lead: string, size: string, n: nat)
    requires Lead(pre, lead) && OneLine(size) && n < |lead| + |size| + 2
    ensures TurnAt(pre + (lead + size + CRLF)[..n], |pre|) == Over(Fail)
  {
    hide Match;
    var s, t := pre + (lead + size + CRLF)[..n], lead + size + CRLF;
    assert forall i :: |pre| <= i < |s| ==> s[i] == t[i - |pre|];
    forall i: nat | |pre| + 1 <= i ensures !Match(s, CRLF, i) {
      MatchOfBreak(s, i);
    }
    FindNone(s, CRLF, |pre| + 1);
  }

  /** A text cut behind its first part. */
  lemma CutBehind(a: string, b: string, n: nat)
    requires |a| <= n <= |a + b|
    ensures (a + b)[..n] == a + b[..n - |a|]
  {
  }

  lemma CutWithin(a: string, b: string, n: nat)
    requires n <= |a|
    ensures (a + b)[..n] == a[..n]
  {
  }

  lemma LineApart(pre: string, lead: string, size: string, after: string)
    ensures pre + (lead + size + CRLF + after) == pre + lead + size + CRLF + after
  {
  }

  /** A cut behind the first size line: the data of its chunk is missing, or the cut is in what follows. */
  lemma LineWhole(pre: string, lead: string, c: Chunk, more: string, n: nat)
    requires Lead(pre, lead) && SizeLine(c.size, |c.data|) && c.data != "" && |pre| + n <= MAX_SIZE
    requires |lead| + |c.size| + 2 <= n <= |lead + c.size + CRLF + (c.data + more)|
    ensures var s, past := pre + (lead + c.size + CRLF + (c.data + more))[..n], pre + (lead + c.size + CRLF) + c.data;
      if |past| <= |pre| + n
        then TurnAt(s, |pre|) == Next(|past|, c.data) && s == past + more[..|pre| + n - |past|]
        else TurnAt(s, |pre|) == Over(Fail)
  {
    hide TurnAt, SizeLine;
    var line := lead + c.size + CRLF;
    var after := (c.data + more)[..n - |line|];
    CutBehind(line, c.data + more, n);
    LineApart(pre, lead, c.size, after);
    TurnOverLine(pre, lead, c.size, |c.data|, after);
    if |c.data| <= |after| {
      var t := more[..n - |line| - |c.data|];
      CutBehind(c.data, more, n - |line|);
      Regroup(pre, line, c.data, t);
      Associate(pre + line, c.data, t);
      Associate(pre, line, after);
    }
  }

  lemma {:induction false} CutFails(
    pre: string, lead: string, chunks: seq<Chunk>, zero: string, n: nat, temp: string, seen: set<nat>)
    requires Lead(pre, lead) && ChunksOk(chunks) && zero != "" && OneLine(zero) && forall p :: p in seen ==> p < |pre|
    requires n < |lead + Encoded(chunks, zero)| && |pre| + n <= MAX_SIZE
    ensures DechunkedFrom(pre + (lead + Encoded(chunks, zero))[..n], |pre|, temp, seen).0 == Fail
    decreases |chunks|
  {
    hide TurnAt, Encoded, OneLine, Stoi;
    var size, tail := HeadLine(chunks, zero);
    var line := lead + size + CRLF;
    assert lead + Encoded(chunks, zero) == line + tail;
    if n < |line| {
      CutWithin(line, tail, n);
      LineCut(pre, lead, size, n);
    } else {
      var c, more := chunks[0], CRLF + Encoded(chunks[1..], zero);
      var past := pre + line + c.data;
      LineWhole(pre, lead, c, more, n);
      if |past| <= |pre| + n {
        CutFails(past, CRLF, chunks[1..], zero, |pre| + n - |past|, temp + c.data, seen + {|pre|});
      }
    }
  }

  /** The first size line, and what follows it. */
  lemma HeadLine(chunks: seq<Chunk>, zero: string) returns (size: string, tail: string)
    requires ChunksOk(chunks) && zero != "" && OneLine(zero)
    ensures Encoded(chunks, zero) == size + CRLF + tail && size != "" && OneLine(size)
    ensures if chunks == [] then size == zero && tail == ""
            else size == chunks[0].size && tail == chunks[0].data + (CRLF + Encoded(chunks[1..], zero))
  {
    if chunks == [] {
      size, tail := zero, "";
    } else {
      size, tail := chunks[0].size, chunks[0].data + (CRLF + Encoded(chunks[1..], zero));
      assert chunks[0].data + CRLF + Encoded(chunks[1..], zero) == tail;
    }
  }

  /** No part of an encoded body that stops before its end is taken for the whole, or for a bad one. */
  lemma PartOfEncodedFails(chunks: seq<Chunk>, zero: string, n: nat)
    requires ChunksOk(chunks) && zero != "" && OneLine(zero) && n < |Encoded(chunks, zero)| <= MAX_SIZE
    ensures Dechunked(Encoded(chunks, zero)[..n]).0 == Fail
  {
    hide Encoded, DechunkedFrom;
    assert "" + ("" + Encoded(chunks, zero))[..n] == Encoded(chunks, zero)[..n];
    CutFails("", "", chunks, zero, n, "", {});
  }

  lemma PrintedMore(m: Reply, e: Reply, order: seq<string>, rest: string)
    requires (forall k :: k in order ==> k in m.heads) && e == m.(content := e.content) && m.content == e.content + rest
    ensures Printed(m, order) == Printed(e, order) + rest
  {
    hide StatusLine, Heads;
    SameLine(m, e);
  }

  lemma OtherContentPrintable(m: Reply, part: Reply)
    requires Printable(m) && part == m.(content := part.content)
    ensures Printable(part)
  {
  }

  /** A chunked response that ends with a size line: no part of it is complete, or bad. */
  lemma PartOfChunkedFails(m: Reply, order: seq<string>, chunks: seq<Chunk>, zero: string, n: nat)
    requires Printable(m) && OrderOf(order, m.heads) && InChunks(m.heads)
    requires ChunksOk(chunks) && zero != "" && OneLine(zero) && m.content == Encoded(chunks, zero) && |m.content| <= MAX_SIZE
    requires n < |Printed(m, order)|
    ensures UnpackedAndCompleted(BLANK, Printed(m, order)[..n]).0 == Fail
  {
    hide Unpacked, Printed, Dechunked, Encoded, SizeLine, ChunksOk, OneLine;
    PrefixUnpacked(m, order, n);
    var r := Unpacked(BLANK, Printed(m, order)[..n]);
    if r.0 == Success {
      PartOfEncodedFails(chunks, zero, n - (|Printed(m, order)| - |m.content|));
    }
  }

  /** A negative size goes back by as much, with all that stands behind its line for a piece; before the start there is nothing. */
  lemma TurnOverNegative(pre: string, lead: string, size: string, v: int, after: string)
    requires Lead(pre, lead) && size != "" && OneLine(size) && Stoi(size, 16) == Some(v) && v < 0
    requires |pre + lead + size + CRLF + after| <= MAX_SIZE
    ensures var p := |pre| + |lead| + |size| + 2 + v;
      TurnAt(pre + lead + size + CRLF + after, |pre|) == if p < 0 then Over(Fail) else Next(p, after)
  {
    hide Find, Match, Stoi, OneLine;
    var s := pre + lead + size + CRLF + after;
    LineFound(pre, lead, size, after);
    StoiBehindLead(lead, size);
    StoiInRange(size, 16);
    assert s[|pre| + |lead| + |size| + 2..|s|] == after;
  }

  /** A size line that holds no number ends the loop with an error. */
  lemma TurnOverBad(pre: string, lead: string, bad: string, after: string)
    requires Lead(pre, lead) && bad != "" && OneLine(bad) && Stoi(bad, 16) == None
    ensures TurnAt(pre + lead + bad + CRLF + after, |pre|) == Over(Error)
  {
    hide Find, Match, Stoi, OneLine;
    LineFound(pre, lead, bad, after);
    StoiBehindLead(lead, bad);
  }

  lemma {:induction false} BadFrom(
    pre: string, lead: string, chunks: seq<Chunk>, bad: string, rest: string, temp: string, seen: set<nat>)
    requires Lead(pre, lead) && ChunksOk(chunks) && bad != "" && OneLine(bad) && Stoi(bad, 16) == None
    requires forall p :: p in seen ==> p < |pre|
    requires |pre + lead + Encoded(chunks, bad) + rest| <= MAX_SIZE
    ensures var s := pre + lead + Encoded(chunks, bad) + rest; DechunkedFrom(s, |pre|, temp, seen) == (Error, s)
    decreases |chunks|
  {
    hide TurnAt, SizeLine, Stoi, OneLine;
    var s := pre + lead + Encoded(chunks, bad) + rest;
    if chunks == [] {
      assert s == pre + lead + bad + CRLF + rest;
      TurnOverBad(pre, lead, bad, rest);
    } else {
      hide Encoded;
      var c, tail := chunks[0], CRLF + Encoded(chunks[1..], bad) + rest;
      OneChunk(pre, lead, chunks, bad, rest);
      TurnOverLine(pre, lead, c.size, |c.data|, c.data + tail);
      var past := pre + lead + c.size + CRLF + c.data;
      assert past + CRLF + Encoded(chunks[1..], bad) + rest == past + tail;
      BadFrom(past, CRLF, chunks[1..], bad, rest, temp + c.data, seen + {|pre|});
    }
  }

  /** Good chunks and then a line without a number: an error, and nothing is decoded. */
  lemma BadSizeIsError(chunks: seq<Chunk>, bad: string, rest: string)
    requires ChunksOk(chunks) && bad != "" && OneLine(bad) && Stoi(bad, 16) == None
    requires |Encoded(chunks, bad) + rest| <= MAX_SIZE
    ensures Dechunked(Encoded(chunks, bad) + rest) == (Error, Encoded(chunks, bad) + rest)
  {
    hide Encoded, DechunkedFrom, Stoi;
    assert "" + "" + Encoded(chunks, bad) + rest == Encoded(chunks, bad) + rest;
    BadFrom("", "", chunks, bad, rest, "", {});
  }

  /** A chunked response with such a line, cut anywhere: nothing before the end of the line, and from there on an error. */
  lemma BadChunkedReply(m: Reply, order: seq<string>, chunks: seq<Chunk>, bad: string, rest: string, n: nat)
    requires Printable(m) && OrderOf(order, m.heads) && InChunks(m.heads) && ChunksOk(chunks)
    requires bad != "" && OneLine(bad) && Stoi(bad, 16) == None && m.content == Encoded(chunks, bad) + rest
    requires n <= |Printed(m, order)| && |m.content| <= MAX_SIZE
    ensures |rest| <= |Printed(m, order)|
    ensures UnpackedAndCompleted(BLANK, Printed(m, order)[..n]).0 == if n + |rest| < |Printed(m, order)| then Fail else Error
  {
    hide Unpacked, Printed, Printable, Dechunked, Encoded, ChunksOk, Stoi, OneLine;
    var e := m.(content := Encoded(chunks, bad));
    var s := Printed(e, order);
    PrintedMore(m, e, order, rest);
    OtherContentPrintable(m, e);
    if n < |s| {
      CutWithin(s, rest, n);
      PartOfChunkedFails(e, order, chunks, bad, n);
    } else {
      CutBehind(s, rest, n);
      var come := rest[..n - |s|];
      var part := m.(content := Encoded(chunks, bad) + come);
      OtherContentPrintable(m, part);
      PrintedMore(part, e, order, come);
      RoundTrip(part, order);
      BadSizeIsError(chunks, bad, come);
    }
  }

  /** After a failure the content is what has come, undecoded. */
  lemma FailureKeepsContent(m: Reply, order: seq<string>)
    requires Printable(m) && OrderOf(order, m.heads) && UnpackedAndCompleted(BLANK, Printed(m, order)).0 != Success
    ensures UnpackedAndCompleted(BLANK, Printed(m, order)).1 == m
  {
    hide Unpacked, Printed, Stoi, DechunkedFrom;
    RoundTrip(m, order);
    KeptUnlessDone(m.content, 0, "", {});
  }

  lemma {:induction false} KeptUnlessDone(content: string, p1: nat, temp: string, seen: set<nat>)
    requires p1 <= |content|
    ensures var r := DechunkedFrom(content, p1, temp, seen); r.0 != Success ==> r.1 == content
    decreases UpTo(|content|) - seen
  {
    hide TurnAt;
    var t := TurnAt(content, p1);
    if p1 !in seen && t.Next? {
      KeptUnlessDone(content, t.p, temp + t.piece, seen + {p1});
    }
  }

  /**
    A chunked response, cut anywhere: nothing before the end of the line of size zero, and from there
    on the decoded body, whatever has come of the trailer and the last line break.
   */
  lemma ChunkedReply(m: Reply, order: seq<string>, chunks: seq<Chunk>, zero: string, rest: string, n: nat)
    requires Printable(m) && OrderOf(order, m.heads) && InChunks(m.heads)
    requires ChunksOk(chunks) && SizeLine(zero, 0) && m.content == Encoded(chunks, zero) + rest
    requires n <= |Printed(m, order)| && |m.content| <= MAX_SIZE
    ensures |rest| <= |Printed(m, order)|
    ensures var r := UnpackedAndCompleted(BLANK, Printed(m, order)[..n]);
      if n + |rest| < |Printed(m, order)| then r.0 == Fail else r == (Success, m.(content := Payload(chunks)))
  {
    hide Unpacked, Printed, Printable, Dechunked, Encoded, Payload, ChunksOk, Stoi, OneLine;
    var e := m.(content := Encoded(chunks, zero));
    var s, whole := Printed(e, order), Printed(m, order);
    PrintedMore(m, e, order, rest);
    OtherContentPrintable(m, e);
    if n < |s| {
      CutWithin(s, rest, n);
      PartOfChunkedFails(e, order, chunks, zero, n);
    } else {
      CutBehind(s, rest, n);
      var come := rest[..n - |s|];
      var part := m.(content := Encoded(chunks, zero) + come);
      OtherContentPrintable(m, part);
      PrintedMore(part, e, order, come);
      RoundTrip(part, order);
      DechunkedOfEncoded(chunks, zero, come);
    }
  }

  /**
    Only the whole of a chunked response succeeds if and only if nothing follows its line of size
    zero; section 4.1 of RFC 7230 always puts a line break there.
   */
  lemma OnlyWholeChunkedIff(m: Reply, order: seq<string>, chunks: seq<Chunk>, zero: string, rest: string)
    requires Printable(m) && OrderOf(order, m.heads) && InChunks(m.heads)
    requires ChunksOk(chunks) && SizeLine(zero, 0) && m.content == Encoded(chunks, zero) + rest && |m.content| <= MAX_SIZE
    ensures var s := Printed(m, order);
      && (forall n :: 0 <= n < |s| ==> UnpackedAndCompleted(BLANK, s[..n]).0 == Fail)
      && UnpackedAndCompleted(BLANK, s) == (Success, m.(content := Payload(chunks)))
      <==> rest == ""
  {
    hide UnpackedAndCompleted, Printed, Printable, Encoded, Payload, SizeLine, ChunksOk;
    var s := Printed(m, order);
    assert s[..|s|] == s;
    ChunkedReply(m, order, chunks, zero, rest, |s|);
    forall n | 0 <= n < |s| ensures UnpackedAndCompleted(BLANK, s[..n]).0 == Fail <==> n + |rest| < |s| {
      ChunkedReply(m, order, chunks, zero, rest, n);
    }
    if rest != "" {
      assert UnpackedAndCompleted(BLANK, s[..|s| - 1]).0 != Fail;
    }
  }

  // ----- The loop that never ends -----

  /** The loop's position after `n` turns; None when it is over by then. */
  function PositionAfter(content: string, n: nat): (r: Option<nat>)
    ensures r.Some? ==> r.value <= |content|
  {
    if n == 0 then Some(0)
    else
      match PositionAfter(content, n - 1)
      case None => None
      case Some(p) => match TurnAt(content, p) case Over(_) => None case Next(q, _) => Some(q)
  }

  lemma {:induction false} StaysOver(content: string, n: nat, k: nat)
    requires n <= k && PositionAfter(content, n) == None
    ensures PositionAfter(content, k) == None
    decreases k - n
  {
    hide TurnAt;
    if n < k { StaysOver(content, n, k - 1); }
  }

  /** From a position met twice the loop goes round for ever. */
  lemma {:induction false} GoesRound(content: string, j: nat, k: nat, n: nat)
    requires j < k && PositionAfter(content, j).Some? && PositionAfter(content, j) == PositionAfter(content, k)
    ensures PositionAfter(content, n).Some? && (n >= k ==> PositionAfter(content, n) == PositionAfter(content, n - (k - j)))
    decreases n
  {
    hide TurnAt;
    if n < k {
      if PositionAfter(content, n) == None { StaysOver(content, n, k); }
    } else if n > k {
      GoesRound(content, j, k, n - 1);
      GoesRound(content, j, k, n - (k - j));
    }
  }

  /** The loop was at position `p` within its first `k` turns. */
  ghost predicate MetBy(content: string, k: nat, p: nat) { exists j: nat :: j < k && PositionAfter(content, j) == Some(p) }

  ghost predicate Met(content: string, k: nat, seen: set<nat>) { forall p: nat :: p in seen <==> MetBy(content, k, p) }

  lemma MetByMore(content: string, k: nat, p: nat)
    ensures MetBy(content, k + 1, p) <==> MetBy(content, k, p) || PositionAfter(content, k) == Some(p)
  {
    hide PositionAfter;
    if MetBy(content, k, p) {
      var j: nat :| j < k && PositionAfter(content, j) == Some(p);
      assert j < k + 1;
    }
  }

  lemma MetMore(content: string, k: nat, seen: set<nat>, p1: nat)
    requires Met(content, k, seen) && PositionAfter(content, k) == Some(p1)
    ensures Met(content, k + 1, seen + {p1})
  {
    hide PositionAfter, MetBy;
    forall p: nat ensures p in seen + {p1} <==> MetBy(content, k + 1, p) { MetByMore(content, k, p); }
  }

  lemma {:induction false} EndsOrGoesRound(content: string, k: nat, p1: nat, temp: string, seen: set<nat>)
    requires PositionAfter(content, k) == Some(p1) && Met(content, k, seen)
    ensures DechunkedFrom(content, p1, temp, seen).0 == Undefined <==> forall n: nat :: PositionAfter(content, n).Some?
    decreases UpTo(|content|) - seen
  {
    hide TurnAt, PositionAfter;
    if p1 in seen {
      assert MetBy(content, k, p1);
      var j: nat :| j < k && PositionAfter(content, j) == Some(p1);
      forall n: nat ensures PositionAfter(content, n).Some? { GoesRound(content, j, k, n); }
    } else {
      TurnTaken(content, k, p1);
      if TurnAt(content, p1).Next? {
        var q := TurnAt(content, p1).p;
        MetMore(content, k, seen, p1);
        EndsOrGoesRound(content, k + 1, q, temp + TurnAt(content, p1).piece, seen + {p1});
      }
    }
  }

  lemma TurnTaken(content: string, k: nat, p1: nat)
    requires PositionAfter(content, k) == Some(p1)
    ensures PositionAfter(content, k + 1) == match TurnAt(content, p1) case Over(_) => None case Next(q, _) => Some(q)
  {
    hide TurnAt;
  }

  /** `Undefined` is the outcome of exactly the bodies on which the loop does not end. */
  lemma UndefinedNeverEnds(content: string)
    ensures Dechunked(content).0 == Undefined <==> forall n: nat :: PositionAfter(content, n).Some?
  {
    hide DechunkedFrom;
    assert Met(content, 0, {});
    EndsOrGoesRound(content, 0, 0, "", {});
  }

  lemma {:induction false} TrimKeeps(s: string, c: char)
    requires Without(s, c)
    ensures Without(Trim(s), c)
    decreases |s|
  {
    if s != "" && IsSpace(s[0]) { TrimKeeps(s[1..], c); }
  }

  lemma {:induction false} DigitsNonNegative(s: string, base: nat, acc: nat)
    ensures ReadDigits(s, base, acc) >= 0
    decreases |s|
  {
    if StartsWithDigit(s, base) { DigitsNonNegative(s[1..], base, acc * base + DigitValue(s[0])); }
  }

  lemma NoMinusNoNegative(s: string)
    requires Without(s, '-')
    ensures Stoi(s, 16).Some? ==> Stoi(s, 16).value >= 0
  {
    hide ReadDigits, Trim;
    TrimKeeps(s, '-');
    forall w: string ensures ReadDigits(w, 16, 0) >= 0 { DigitsNonNegative(w, 16, 0); }
  }

  /** The size line read at position `p1` holds a negative number. */
  predicate NegativeAt(content: string, p1: nat)
    requires p1 <= |content|
  {
    var p2 := Find(content, CRLF, p1 + 1);
    p2 != NPOS && Stoi(content[p1..p2], 16).Some? && Stoi(content[p1..p2], 16).value < 0
  }

  ghost predicate NoneNegative(content: string) {
    forall j: nat :: PositionAfter(content, j).Some? ==> !NegativeAt(content, PositionAfter(content, j).value)
  }

  lemma TurnAdvances(content: string, p1: nat)
    requires p1 <= |content| <= MAX_SIZE && !NegativeAt(content, p1)
    ensures TurnAt(content, p1).Next? ==> TurnAt(content, p1).p > p1
  {
    hide Stoi, Match;
    var p2 := Find(content, CRLF, p1 + 1);
    if p2 != NPOS { StoiInRange(content[p1..p2], 16); }
  }

  lemma {:induction false} NonNegativeAdvances(content: string, k: nat, p1: nat, temp: string, seen: set<nat>)
    requires NoneNegative(content) && |content| <= MAX_SIZE
    requires PositionAfter(content, k) == Some(p1) && forall p :: p in seen ==> p < p1
    ensures DechunkedFrom(content, p1, temp, seen).0 != Undefined
    decreases |content| - p1
  {
    hide TurnAt, NegativeAt, PositionAfter;
    assert !NegativeAt(content, p1);
    TurnAdvances(content, p1);
    TurnTaken(content, k, p1);
    var t := TurnAt(content, p1);
    if t.Next? { NonNegativeAdvances(content, k + 1, t.p, temp + t.piece, seen + {p1}); }
  }

  /** A body none of whose size lines, as far as they are read, is negative always comes to an end. */
  lemma NonNegativeEnds(content: string)
    requires NoneNegative(content) && |content| <= MAX_SIZE
    ensures Dechunked(content).0 != Undefined
  {
    hide DechunkedFrom, NoneNegative;
    NonNegativeAdvances(content, 0, 0, "", {});
  }

  /** So does a body without a minus sign. */
  lemma NoMinusEnds(content: string)
    requires Without(content, '-') && |content| <= MAX_SIZE
    ensures Dechunked(content).0 != Undefined
  {
    hide Stoi, Match, Dechunked;
    forall j: nat | PositionAfter(content, j).Some? ensures !NegativeAt(content, PositionAfter(content, j).value) {
      var p1 := PositionAfter(content, j).value;
      var p2 := Find(content, CRLF, p1 + 1);
      if p2 != NPOS { NoMinusNoNegative(content[p1..p2]); }
    }
    NonNegativeEnds(content);
  }

  lemma {:induction false} SubsetSize(a: set<nat>, b: set<nat>)
    requires a <= b
    ensures |a| <= |b|
    decreases |a|
  {
    if a != {} {
      var x :| x in a;
      SubsetSize(a - {x}, b - {x});
    }
  }

  lemma {:induction false} SizeOfUpTo(n: nat)
    ensures |UpTo(n)| == n + 1
  {
    if n > 0 { SizeOfUpTo(n - 1); }
  }

  /** Positions not met before are soon used up. */
  lemma FewMet(content: string, k: nat, seen: set<nat>, p1: nat)
    requires Met(content, k, seen) && p1 <= |content| && p1 !in seen
    ensures |seen| <= |content| && seen <= UpTo(|content|)
  {
    hide PositionAfter;
    SizeOfUpTo(|content|);
    forall p: nat | p in seen ensures p in UpTo(|content|) {
      assert MetBy(content, k, p);
      var j: nat :| j < k && PositionAfter(content, j) == Some(p);
      PositionWithin(content, j);
    }
    SubsetSize(seen + {p1}, UpTo(|content|));
  }

  lemma PositionWithin(content: string, j: nat)
    ensures PositionAfter(content, j).Some? ==> PositionAfter(content, j).value <= |content|
  {
  }

  lemma {:induction false} EndsSoon(content: string, k: nat, p1: nat, temp: string, seen: set<nat>)
    requires PositionAfter(content, k) == Some(p1) && Met(content, k, seen) && |seen| == k
    ensures DechunkedFrom(content, p1, temp, seen).0 != Undefined ==> PositionAfter(content, |content| + 1) == None
    decreases UpTo(|content|) - seen
  {
    hide TurnAt, PositionAfter, Met;
    if p1 !in seen {
      TurnTaken(content, k, p1);
      FewMet(content, k, seen, p1);
      if TurnAt(content, p1).Next? {
        MetMore(content, k, seen, p1);
        EndsSoon(content, k + 1, TurnAt(content, p1).p, temp + TurnAt(content, p1).piece, seen + {p1});
      } else {
        StaysOver(content, k + 1, |content| + 1);
      }
    }
  }

  /** Whether the loop ends shows within as many turns as there are positions. */
  lemma UndefinedIffStillGoing(content: string)
    ensures Dechunked(content).0 == Undefined <==> PositionAfter(content, |content| + 1).Some?
  {
    hide DechunkedFrom;
    UndefinedNeverEnds(content);
    assert Met(content, 0, {});
    EndsSoon(content, 0, 0, "", {});
  }

  lemma MinusFour()
    ensures Stoi("-4", 16) == Some(-4)
  {
    var w := "4";
    assert DigitValue(w[0]) == 4 && w[1..] == "" && "-4"[1..] == w;
    assert ReadDigits(w, 16, 0) == ReadDigits(w[1..], 16, DigitValue(w[0])) == 4;
    assert Trim("-4") == "-4";
  }

  /** There are such bodies: a size of minus four takes the loop back to where it started. */
  lemma NegativeSizeNeverEnds()
    ensures Dechunked("-4\r\n").0 == Undefined
  {
    hide Stoi;
    var s := "-4\r\n";
    MinusFour();
    LineFound("", "", "-4", "");
    assert "" + "" + "-4" + CRLF + "" == s && "" + "-4" == "-4";
    assert TurnAt(s, 0) == Next(0, "");
  }
}
