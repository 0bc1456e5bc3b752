/** The client's step: what has arrived is parsed with every message, and once more when the connection ends. */
module HttpClient {
  import opened Buffers
  import opened HttpCommon
  import opened HttpResponse
  import opened Options
  import Text

  /** `Delivered` is the `Success` of the source's enumeration. */
  datatype ReqResult = Delivered | ConnectFail | ParseFail | Unknow

  /** What the callback is given. */
  datatype Report = Report(rst: ReqResult, resp: Option<Reply>)

  /** The outcome of parsing, and the report it leads to, if any. */
  datatype Outcome = Outcome(result: ParseResult, report: Option<Report>)

  /** A message: a complete response is reported; what has arrived is kept unless it is a bad one. */
  function OnData(arrived: string): (Outcome, string) {
    var r := UnpackedAndCompleted(BLANK, arrived);
    (Outcome(r.0, if r.0 == Success then Some(Report(Delivered, Some(r.1))) else None), if r.0 == Error then "" else arrived)
  }

  /** The end of the connection: what has arrived is reported if it has a good header, complete or not. */
  function OnEnd(arrived: string): Outcome {
    var r := Unpacked(BLANK, arrived);
    match r.0
    case Success => Outcome(Success, Some(Report(Delivered, Some(r.1))))
    case Undefined => Outcome(Undefined, None)
    case _ => Outcome(r.0, Some(Report(ParseFail, None)))
  }

  function Receive(buf: string, fragments: seq<string>): (seq<Outcome>, string)
    decreases |fragments|
  {
    if fragments == [] then ([], buf)
    else
      var (outcome, left) := OnData(buf + fragments[0]);
      var (outcomes, last) := Receive(left, fragments[1..]);
      ([outcome] + outcomes, last)
  }

  class HttpClient {
    var buffer: string
    var isConnected: bool

    constructor ()
      ensures |buffer| == 20480 && !isConnected
    {
      buffer, isConnected := seq(20480, _ => 0 as char), false;
    }

    /** A request is to be sent: the buffer is emptied first. */
    method Req()
      modifies this`buffer
      ensures buffer == ""
    {
      buffer := "";
    }

    method OnMessage(data: string) returns (outcome: Outcome)
      modifies this`buffer
      ensures (outcome, buffer) == OnData(old(buffer) + data)
    {
      hide UnpackedAndCompleted;
      buffer := buffer + data;
      var resp := new Response();
      var rst := resp.UnpackAndCompleted(buffer);
      outcome := Outcome(rst, None);
      if rst == Success {
        outcome := Outcome(rst, Some(Report(Delivered, Some(resp.State()))));
      } else if rst == Error {
        buffer := "";
      }
    }

    /** The connection has ended. */
    method OnDisconnect() returns (outcome: Outcome)
      modifies this`isConnected
      ensures outcome == OnEnd(buffer) && !isConnected
    {
      hide Unpacked;
      isConnected := false;
      var resp := new Response();
      var rst := resp.Unpack(buffer);
      outcome := Outcome(rst, None);
      if rst == Success {
        outcome := Outcome(rst, Some(Report(Delivered, Some(resp.State()))));
      } else if rst != Undefined {
        outcome := Outcome(rst, Some(Report(ParseFail, None)));
      }
    }

    /** A connection's fragments arrive one after the other. */
    method Deliver(fragments: seq<string>) returns (outcomes: seq<Outcome>)
      modifies this`buffer
      ensures (outcomes, buffer) == Receive(old(buffer), fragments)
    {
      hide OnData, Receive;
      outcomes := [];
      var i := 0;
      ghost var was := buffer;
      assert fragments[i..] == fragments && outcomes + Receive(was, fragments).0 == Receive(was, fragments).0;
      while i < |fragments|
        invariant 0 <= i <= |fragments|
        invariant Receive(was, fragments).0 == outcomes + Receive(buffer, fragments[i..]).0
        invariant Receive(was, fragments).1 == Receive(buffer, fragments[i..]).1
      {
        assert fragments[i..][0] == fragments[i] && fragments[i..][1..] == fragments[i + 1..];
        ReceiveOnce(buffer, fragments[i..]);
        var outcome := OnMessage(fragments[i]);
        outcomes := outcomes + [outcome];
        i := i + 1;
      }
      assert fragments[i..] == [] && outcomes + [] == outcomes;
      NothingReceived(buffer);
    }
  }

  lemma ReceiveOnce(buf: string, fragments: seq<string>)
    requires fragments != []
    ensures var step := OnData(buf + fragments[0]);
      Receive(buf, fragments) == ([step.0] + Receive(step.1, fragments[1..]).0, Receive(step.1, fragments[1..]).1)
  {
  }

  lemma NothingReceived(buf: string)
    ensures Receive(buf, []) == ([], buf)
  {
  }

  // ----- Where a response is complete -----

  /** The first `n` characters of `s`, parsed: nothing yet before `from`, and from there on always `reply`. */
  ghost predicate CompleteFrom(s: string, from: nat, reply: Reply) {
    forall n :: 0 <= n <= |s| ==>
      var r := UnpackedAndCompleted(BLANK, s[..n]); if n < from then r.0 == Fail else r == (Success, reply)
  }

  lemma DeclaredCompleteFrom(m: Reply, order: seq<string>)
    requires Printable(m) && OrderOf(order, m.heads) && LengthDeclared(m)
    ensures CompleteFrom(Printed(m, order), |Printed(m, order)|, m)
  {
    hide UnpackedAndCompleted, Printed, Printable, LengthDeclared;
    var s := Printed(m, order);
    forall n | 0 <= n <= |s|
      ensures var r := UnpackedAndCompleted(BLANK, s[..n]); if n < |s| then r.0 == Fail else r == (Success, m)
    {
      DeclaredReply(m, order, n);
    }
  }

  lemma ChunkedCompleteFrom(m: Reply, order: seq<string>, chunks: seq<Chunk>, zero: string, rest: string)
    requires Printable(m) && OrderOf(order, m.heads) && InChunks(m.heads)
    requires ChunksOk(chunks) && SizeLine(zero, 0) && m.content == Encoded(chunks, zero) + rest && |m.content| <= MAX_SIZE
    ensures |rest| <= |Printed(m, order)|
    ensures CompleteFrom(Printed(m, order), |Printed(m, order)| - |rest|, m.(content := Payload(chunks)))
  {
    hide UnpackedAndCompleted, Printed, Printable, InChunks, ChunksOk, SizeLine, Encoded, Payload;
    var s, reply := Printed(m, order), m.(content := Payload(chunks));
    ChunkedReply(m, order, chunks, zero, rest, 0);
    forall n | 0 <= n <= |s|
      ensures var r := UnpackedAndCompleted(BLANK, s[..n]); if n < |s| - |rest| then r.0 == Fail else r == (Success, reply)
    {
      ChunkedReply(m, order, chunks, zero, rest, n);
    }
  }

  lemma UnboundedCompleteFrom(m: Reply, order: seq<string>)
    requires Printable(m) && OrderOf(order, m.heads) && Unbounded(m)
    ensures CompleteFrom(Printed(m, order), |Printed(m, order)| + 1, m)
  {
    hide UnpackedAndCompleted, Printed, Printable, Unbounded;
    var s := Printed(m, order);
    forall n | 0 <= n <= |s| ensures UnpackedAndCompleted(BLANK, s[..n]).0 == Fail { UnboundedNeverSucceeds(m, order, n); }
  }

  // ----- What is reported -----

  function Reports(outcomes: seq<Outcome>): seq<Report>
    decreases |outcomes|
  {
    if outcomes == [] then []
    else (if outcomes[0].report.Some? then [outcomes[0].report.value] else []) + Reports(outcomes[1..])
  }

  lemma ReportsOnce(outcomes: seq<Outcome>)
    requires outcomes != []
    ensures Reports(outcomes) ==
            (if outcomes[0].report.Some? then [outcomes[0].report.value] else []) + Reports(outcomes[1..])
  {
  }

  /** How many of the fragments end at position `from` or later, with `have` before them. */
  function Late(have: nat, fragments: seq<string>, from: nat): nat
    decreases |fragments|
  {
    if fragments == [] then 0
    else (if have + |fragments[0]| >= from then 1 else 0) + Late(have + |fragments[0]|, fragments[1..], from)
  }

  lemma LateOnce(have: nat, fragments: seq<string>, from: nat)
    requires fragments != []
    ensures Late(have, fragments, from) ==
            (if have + |fragments[0]| >= from then 1 else 0) + Late(have + |fragments[0]|, fragments[1..], from)
  {
  }

  function Repeated(report: Report, n: nat): (r: seq<Report>)
    ensures |r| == n
  {
    if n == 0 then [] else [report] + Repeated(report, n - 1)
  }

  /** A response is reported with every message that ends at the point where it is complete, or later. */
  lemma {:induction false} ReportedWithEachLater(s: string, from: nat, reply: Reply, buf: string, fragments: seq<string>)
    requires CompleteFrom(s, from, reply) && buf + Concat(fragments) <= s
    ensures Reports(Receive(buf, fragments).0) == Repeated(Report(Delivered, Some(reply)), Late(|buf|, fragments, from))
    ensures Receive(buf, fragments).1 == buf + Concat(fragments)
    decreases |fragments|
  {
    hide CompleteFrom, Receive, Reports, Late, Concat, OnData;
    if fragments == [] {
      NothingYet(buf, fragments, from);
    } else {
      var arrived, rest := buf + fragments[0], fragments[1..];
      ReceiveOnce(buf, fragments);
      ConcatOnce(fragments);
      LateOnce(|buf|, fragments, from);
      assert buf + (fragments[0] + Concat(rest)) == arrived + Concat(rest);
      assert arrived == s[..|arrived|];
      DataArrived(s, from, reply, |arrived|);
      ReportsOnce(Receive(buf, fragments).0);
      ReportedWithEachLater(s, from, reply, arrived, rest);
    }
  }

  lemma NothingYet(buf: string, fragments: seq<string>, from: nat)
    requires fragments == []
    ensures Reports(Receive(buf, fragments).0) == [] && Late(|buf|, fragments, from) == 0
    ensures Receive(buf, fragments).1 == buf + Concat(fragments)
  {
    assert buf + [] == buf;
  }

  lemma DataArrived(s: string, from: nat, reply: Reply, n: nat)
    requires CompleteFrom(s, from, reply) && n <= |s|
    ensures OnData(s[..n]) ==
            (if n < from then Outcome(Fail, None) else Outcome(Success, Some(Report(Delivered, Some(reply)))), s[..n])
  {
    hide UnpackedAndCompleted;
  }

  lemma {:induction false} LateCount(have: nat, fragments: seq<string>, from: nat)
    requires fragments != []
    ensures Late(have, fragments, from) == 0 <==> have + |Concat(fragments)| < from
    ensures have < from ==>
      (Late(have, fragments, from) == 1 <==>
       have + |Concat(fragments[..|fragments| - 1])| < from <= have + |Concat(fragments)|)
    decreases |fragments|
  {
    hide Late, Concat;
    var next, rest := have + |fragments[0]|, fragments[1..];
    LateOnce(have, fragments, from);
    ConcatOnce(fragments);
    if |fragments| == 1 {
      NothingConcatenated(rest);
      NothingConcatenated(fragments[..|fragments| - 1]);
      LateOfNone(next, rest, from);
    } else {
      ConcatOnce(fragments[..|fragments| - 1]);
      assert fragments[..|fragments| - 1][1..] == rest[..|rest| - 1];
      LateCount(next, rest, from);
    }
  }

  lemma LateOfNone(have: nat, fragments: seq<string>, from: nat)
    requires fragments == []
    ensures Late(have, fragments, from) == 0
  {
  }

  lemma NothingIncomplete(s: string, from: nat, reply: Reply)
    requires CompleteFrom(s, from, reply)
    ensures from > 0
  {
    hide WithHeads, ParseStatus, LinesFrom, Dechunked;
    assert s[..0] == "" && UnpackedAndCompleted(BLANK, "").0 == Fail by { Text.FindNone("", HEADER_END, 0); }
  }

  /** With its messages, a response is reported exactly once if and only if it is the last one that completes it. */
  lemma ReportedOnceIff(s: string, from: nat, reply: Reply, fragments: seq<string>)
    requires CompleteFrom(s, from, reply) && Concat(fragments) == s && fragments != []
    ensures Reports(Receive("", fragments).0) == [Report(Delivered, Some(reply))] <==>
            |Concat(fragments[..|fragments| - 1])| < from <= |s|
  {
    hide CompleteFrom, Receive, Reports, Late, Concat;
    var report, n := Report(Delivered, Some(reply)), Late(0, fragments, from);
    assert "" + Concat(fragments) == s;
    ReportedWithEachLater(s, from, reply, "", fragments);
    LateCount(0, fragments, from);
    NothingIncomplete(s, from, reply);
    assert Repeated(report, 1) == [report];
  }

  /** The end of the connection reports a response that has arrived again, its chunks undecoded. */
  lemma ReportedAtEnd(m: Reply, order: seq<string>, from: nat, reply: Reply, fragments: seq<string>)
    requires Printable(m) && OrderOf(order, m.heads) && Concat(fragments) == Printed(m, order) && fragments != []
    requires CompleteFrom(Printed(m, order), from, reply)
    ensures OnEnd(Receive("", fragments).1) == Outcome(Success, Some(Report(Delivered, Some(m))))
    ensures Reports(Receive("", fragments).0) == [] <==> |Printed(m, order)| < from
  {
    hide CompleteFrom, Receive, Reports, Late, Concat, Printed, Printable, Unpacked;
    var s := Printed(m, order);
    assert "" + Concat(fragments) == s;
    ReportedWithEachLater(s, from, reply, "", fragments);
    LateCount(0, fragments, from);
    RoundTrip(m, order);
  }

  /**
    If the connection ends early, what has come of the content is reported as delivered, whatever length
    is declared, and a parse failure only if not even the header is there.
   */
  lemma CutReportedAtEnd(m: Reply, order: seq<string>, n: nat)
    requires Printable(m) && OrderOf(order, m.heads) && n <= |Printed(m, order)|
    ensures |m.content| <= |Printed(m, order)|
    ensures var h := |Printed(m, order)| - |m.content|;
      OnEnd(Printed(m, order)[..n]).report ==
        Some(if n < h then Report(ParseFail, None) else Report(Delivered, Some(m.(content := m.content[..n - h]))))
  {
    hide Printed, Printable, Unpacked;
    PrefixUnpacked(m, order, n);
  }

  /**
    Over messages and end, a response is reported exactly once, and as it was sent, if and only if
    nothing in it tells where it is complete.
   */
  lemma OnceInAllIff(m: Reply, order: seq<string>, from: nat, reply: Reply, fragments: seq<string>)
    requires Printable(m) && OrderOf(order, m.heads) && Concat(fragments) == Printed(m, order) && fragments != []
    requires CompleteFrom(Printed(m, order), from, reply)
    ensures var (outcomes, left) := Receive("", fragments);
      Reports(outcomes + [OnEnd(left)]) == [Report(Delivered, Some(m))] <==> |Printed(m, order)| < from
  {
    hide Receive, Reports, Concat, Printed, Printable, OnEnd, CompleteFrom;
    ReportedAtEnd(m, order, from, reply, fragments);
    ReportsThenEnd(Receive("", fragments).0, OnEnd(Receive("", fragments).1));
  }

  lemma NothingReported(outcomes: seq<Outcome>)
    requires outcomes == []
    ensures Reports(outcomes) == []
  {
  }

  lemma {:induction false} ReportsThenEnd(outcomes: seq<Outcome>, last: Outcome)
    requires last.report.Some?
    ensures Reports(outcomes + [last]) == Reports(outcomes) + [last.report.value]
    decreases |outcomes|
  {
    hide Reports;
    ReportsOnce(outcomes + [last]);
    if outcomes == [] {
      NothingReported(outcomes);
      NothingReported((outcomes + [last])[1..]);
    } else {
      assert (outcomes + [last])[1..] == outcomes[1..] + [last];
      ReportsOnce(outcomes);
      ReportsThenEnd(outcomes[1..], last);
    }
  }

  // ----- What is bad -----

  /** From `from` characters on what has come of `s` is bad, and before that it is nothing yet. */
  ghost predicate BadAfter(s: string, from: nat) {
    forall n :: 0 <= n <= |s| ==> UnpackedAndCompleted(BLANK, s[..n]).0 == if n < from then Fail else Error
  }

  /**
    When the last fragment of something bad has made it so, it is forgotten: what follows is received as if it
    were the first.
   */
  lemma {:induction false} BadForgotten(s: string, from: nat, buf: string, fragments: seq<string>, more: seq<string>)
    requires BadAfter(s, from) && from <= |s| && buf + Concat(fragments) == s && fragments != []
    requires |buf + Concat(fragments[..|fragments| - 1])| < from
    ensures Reports(Receive(buf, fragments + more).0) == Reports(Receive("", more).0)
    ensures Receive(buf, fragments + more).1 == Receive("", more).1
    decreases |fragments|
  {
    hide BadAfter, Receive, Reports, Concat, OnData;
    var arrived, rest := buf + fragments[0], fragments[1..];
    assert (fragments + more)[0] == fragments[0] && (fragments + more)[1..] == rest + more;
    ReceiveOnce(buf, fragments + more);
    ConcatOnce(fragments);
    assert buf + (fragments[0] + Concat(rest)) == arrived + Concat(rest);
    assert arrived == s[..|arrived|];
    BadArrived(s, from, |arrived|);
    ReportsOnce(Receive(buf, fragments + more).0);
    if rest == [] {
      NothingConcatenated(rest);
      assert rest + more == more;
    } else {
      ConcatOnce(fragments[..|fragments| - 1]);
      assert fragments[..|fragments| - 1][1..] == rest[..|rest| - 1];
      assert buf + (fragments[0] + Concat(rest[..|rest| - 1])) == arrived + Concat(rest[..|rest| - 1]);
      BadForgotten(s, from, arrived, rest, more);
    }
  }

  lemma BadArrived(s: string, from: nat, n: nat)
    requires BadAfter(s, from) && n <= |s|
    ensures OnData(s[..n]) == (Outcome(if n < from then Fail else Error, None), if n < from then s[..n] else "")
  {
    hide UnpackedAndCompleted;
  }

  lemma BadChunkedAfter(m: Reply, order: seq<string>, chunks: seq<Chunk>, bad: string, rest: string)
    requires Printable(m) && OrderOf(order, m.heads) && InChunks(m.heads) && ChunksOk(chunks)
    requires bad != "" && OneLine(bad) && Text.Stoi(bad, 16) == None && m.content == Encoded(chunks, bad) + rest
    requires |m.content| <= MAX_SIZE
    ensures |rest| <= |Printed(m, order)| && BadAfter(Printed(m, order), |Printed(m, order)| - |rest|)
  {
    hide UnpackedAndCompleted, Printed, Printable, InChunks, ChunksOk, Encoded, OneLine;
    var s := Printed(m, order);
    BadChunkedReply(m, order, chunks, bad, rest, 0);
    forall n | 0 <= n <= |s| ensures UnpackedAndCompleted(BLANK, s[..n]).0 == if n < |s| - |rest| then Fail else Error {
      BadChunkedReply(m, order, chunks, bad, rest, n);
    }
  }

  /** A response whose size line holds no number does not keep the next one from being reported. */
  lemma ReportedAfterBad(
    m: Reply, order: seq<string>, chunks: seq<Chunk>, bad: string, rest: string, fragments: seq<string>,
    next: string, from: nat, reply: Reply, more: seq<string>)
    requires Printable(m) && OrderOf(order, m.heads) && InChunks(m.heads) && ChunksOk(chunks)
    requires bad != "" && OneLine(bad) && Text.Stoi(bad, 16) == None && m.content == Encoded(chunks, bad) + rest
    requires |m.content| <= MAX_SIZE && Concat(fragments) == Printed(m, order) && fragments != []
    requires |Concat(fragments[..|fragments| - 1])| + |rest| < |Printed(m, order)|
    requires CompleteFrom(next, from, reply) && Concat(more) <= next
    ensures Reports(Receive("", fragments + more).0) == Repeated(Report(Delivered, Some(reply)), Late(0, more, from))
  {
    hide BadAfter, CompleteFrom, Receive, Reports, Concat, Printed, Printable, InChunks, ChunksOk, Encoded, OneLine, Late;
    BadChunkedAfter(m, order, chunks, bad, rest);
    assert "" + Concat(fragments) == Concat(fragments) && "" + Concat(more) == Concat(more);
    assert "" + Concat(fragments[..|fragments| - 1]) == Concat(fragments[..|fragments| - 1]);
    BadForgotten(Printed(m, order), |Printed(m, order)| - |rest|, "", fragments, more);
    ReportedWithEachLater(next, from, reply, "", more);
  }

  /** A header that cannot be read is not forgotten: whatever follows it, nothing is reported until the end. */
  lemma {:induction false} StuckOnMalformed(ls: seq<string>, body: string, fragments: seq<string>)
    requires Lines(ls) && Malformed(ls)
    ensures Reports(Receive(Headed(ls, body), fragments).0) == []
    ensures Receive(Headed(ls, body), fragments).1 == Headed(ls, body + Concat(fragments))
    decreases |fragments|
  {
    hide Headed, Malformed, Receive, Reports, Concat, OnData;
    if fragments == [] {
      NothingReceived(Headed(ls, body));
      NothingConcatenated(fragments);
      NothingReported([]);
      assert body + "" == body;
    } else {
      var rest := fragments[1..];
      HeadedMore(ls, body, fragments[0]);
      ReceiveOnce(Headed(ls, body), fragments);
      ConcatOnce(fragments);
      MalformedArrived(ls, body + fragments[0]);
      ReportsOnce(Receive(Headed(ls, body), fragments).0);
      assert body + (fragments[0] + Concat(rest)) == body + fragments[0] + Concat(rest);
      StuckOnMalformed(ls, body + fragments[0], rest);
    }
  }

  lemma MalformedArrived(ls: seq<string>, body: string)
    requires Lines(ls) && Malformed(ls)
    ensures OnData(Headed(ls, body)) == (Outcome(Fail, None), Headed(ls, body))
  {
    hide Headed, Malformed, Unpacked;
    ErrorIffMalformed(ls, body);
  }

  // ----- What the end of a connection reports -----

  /** Whatever has arrived in lines, the end reports it: a response if the header is a good one, and otherwise a parse failure. */
  lemma HeaderReportedAtEnd(ls: seq<string>, body: string)
    requires Lines(ls)
    ensures var outcome := OnEnd(Headed(ls, body));
      if Malformed(ls) then outcome.report == Some(Report(ParseFail, None))
      else outcome.report.Some? && outcome.report.value.rst == Delivered && outcome.report.value.resp.Some?
           && outcome.report.value.resp.value.content == body
  {
    hide Headed, Malformed, Joined, ParseStatus, WithHeads;
    ErrorIffMalformed(ls, body);
    SplitOfHeaded(ls, body);
    BodyOfHeaded(ls, body);
  }

  /** Of what has no end of a header in it, a parse failure is reported. */
  lemma NoHeaderReportedAtEnd(arrived: string)
    requires forall i :: !Text.Match(arrived, HEADER_END, i)
    ensures OnEnd(arrived).report == Some(Report(ParseFail, None))
  {
    hide WithHeads, ParseStatus, LinesFrom;
    Text.FindNone(arrived, HEADER_END, 0);
  }

  /** Nothing is left unreported but what begins with the end of a header. */
  lemma AlwaysReported(arrived: string)
    ensures OnEnd(arrived).report == None <==> HEADER_END <= arrived
  {
    hide Unpacked;
    UndefinedIff(BLANK, arrived);
  }
}
