/** A connection's stream of requests, cut anywhere: which of them are looked up. */
module HttpStream {
  import opened Buffers
  import opened HttpCommon
  import opened HttpRequest
  import opened HttpServer
  import opened Sequences
  import Text

  /** A request in print: the message, and the orders its maps are printed in. */
  datatype Written = Written(message: Message, params: seq<string>, heads: seq<string>)

  ghost predicate Writable(w: Written) {
    && Printable(w.message) && Delimited(w.message)
    && OrderOf(w.params, w.message.params) && OrderOf(w.heads, w.message.heads)
  }

  ghost predicate AllWritable(ws: seq<Written>) { forall i :: 0 <= i < |ws| ==> Writable(ws[i]) }

  ghost function Print(w: Written): (s: string)
    requires Writable(w)
  {
    Printed(w.message, w.params, w.heads)
  }

  ghost function Stream(ws: seq<Written>): string
    requires AllWritable(ws)
    decreases |ws|
  {
    if ws == [] then "" else Print(ws[0]) + Stream(ws[1..])
  }

  ghost function Read(ws: seq<Written>): seq<Message>
    decreases |ws|
  {
    if ws == [] then [] else [Arrived(ws[0].message)] + Read(ws[1..])
  }

  lemma PrintNotEmpty(w: Written)
    requires Writable(w)
    ensures Print(w) != ""
  {
    hide Params, Heads;
  }

  lemma StreamOnce(ws: seq<Written>, k: nat)
    requires AllWritable(ws) && 0 < k <= |ws|
    ensures Stream(ws[..k]) == Print(ws[0]) + Stream(ws[1..][..k - 1])
    ensures |Print(ws[0])| <= |Stream(ws[..k])| && Stream(ws[..1]) == Print(ws[0])
  {
    hide Print;
    assert ws[..k][1..] == ws[1..][..k - 1] && ws[..1][1..] == [];
    assert Print(ws[0]) + "" == Print(ws[0]);
  }

  lemma ReadOnce(ws: seq<Written>, n: nat)
    requires 0 < n <= |ws|
    ensures Read(ws[..n]) == [Arrived(ws[0].message)] + Read(ws[1..][..n - 1])
  {
    assert ws[..n][1..] == ws[1..][..n - 1];
  }

  /** With `have` before it, some fragment ends at position `p`. */
  ghost predicate EndsAt(have: nat, fragments: seq<string>, p: nat) {
    exists k :: 0 <= k <= |fragments| && have + |Concat(fragments[..k])| == p
  }

  lemma EndsFurther(have: nat, fragments: seq<string>, p: nat)
    requires fragments != [] && have < p
    ensures EndsAt(have, fragments, p) <==> EndsAt(have + |fragments[0]|, fragments[1..], p)
  {
    hide Concat;
    var next, rest := have + |fragments[0]|, fragments[1..];
    NothingConcatenated(fragments[..0]);
    forall k | 0 < k <= |fragments| ensures have + |Concat(fragments[..k])| == next + |Concat(rest[..k - 1])| {
      ConcatOnce(fragments[..k]);
      assert fragments[..k][1..] == rest[..k - 1];
    }
    if EndsAt(next, rest, p) {
      var k :| 0 <= k <= |rest| && next + |Concat(rest[..k])| == p;
      assert have + |Concat(fragments[..k + 1])| == p;
    }
  }

  lemma EndsShifted(have: nat, fragments: seq<string>, p: nat)
    ensures EndsAt(have, fragments, have + p) <==> EndsAt(0, fragments, p)
  {
    hide Concat;
  }

  lemma EndsHere(have: nat, fragments: seq<string>)
    ensures EndsAt(have, fragments, have)
  {
    NothingConcatenated(fragments[..0]);
  }

  /** The request with index `i` ends where a fragment ends. */
  ghost predicate Ended(have: nat, fragments: seq<string>, ws: seq<Written>, i: nat)
    requires AllWritable(ws) && i < |ws|
  {
    EndsAt(have, fragments, |Stream(ws[..i + 1])|)
  }

  /** The first `n` requests end where a fragment ends, and the next one, if there is one, does not. */
  ghost predicate LeadingRun(have: nat, fragments: seq<string>, ws: seq<Written>, n: nat)
    requires AllWritable(ws)
  {
    && n <= |ws| && (forall i :: 0 <= i < n ==> Ended(have, fragments, ws, i))
    && (n < |ws| ==> !Ended(have, fragments, ws, n))
  }

  /** There is exactly one such number. */
  ghost function RunFrom(fragments: seq<string>, ws: seq<Written>, i: nat): (n: nat)
    requires AllWritable(ws) && i <= |ws|
    ensures i <= n <= |ws|
    decreases |ws| - i
  {
    if i < |ws| && Ended(0, fragments, ws, i) then RunFrom(fragments, ws, i + 1) else i
  }

  lemma {:induction false} RunFromLeads(fragments: seq<string>, ws: seq<Written>, i: nat)
    requires AllWritable(ws) && i <= |ws| && forall j :: 0 <= j < i ==> Ended(0, fragments, ws, j)
    ensures LeadingRun(0, fragments, ws, RunFrom(fragments, ws, i))
    decreases |ws| - i
  {
    hide Ended;
    if i < |ws| && Ended(0, fragments, ws, i) { RunFromLeads(fragments, ws, i + 1); }
  }

  lemma EndedFurther(have: nat, fragments: seq<string>, ws: seq<Written>, i: nat)
    requires AllWritable(ws) && fragments != [] && i < |ws| && have < |Print(ws[0])|
    ensures Ended(have, fragments, ws, i) <==> Ended(have + |fragments[0]|, fragments[1..], ws, i)
  {
    hide EndsAt, Stream, Print;
    StreamOnce(ws, i + 1);
    EndsFurther(have, fragments, |Stream(ws[..i + 1])|);
  }

  lemma EndedShifted(fragments: seq<string>, ws: seq<Written>, i: nat)
    requires AllWritable(ws) && 0 < i < |ws|
    ensures Ended(|Print(ws[0])|, fragments, ws, i) <==> Ended(0, fragments, ws[1..], i - 1)
  {
    hide EndsAt, Stream, Print;
    StreamOnce(ws, i + 1);
    EndsShifted(|Print(ws[0])|, fragments, |Stream(ws[1..][..i])|);
  }

  lemma EndedHere(fragments: seq<string>, ws: seq<Written>)
    requires AllWritable(ws) && ws != []
    ensures Ended(|Print(ws[0])|, fragments, ws, 0)
  {
    hide EndsAt, Stream, Print;
    StreamOnce(ws, 1);
    EndsHere(|Print(ws[0])|, fragments);
  }

  lemma NotEnded(have: nat, fragments: seq<string>, ws: seq<Written>)
    requires AllWritable(ws) && ws != []
    requires have > |Print(ws[0])| || (have < |Print(ws[0])| && fragments == [])
    ensures !Ended(have, fragments, ws, 0)
  {
    hide Stream, Print;
    StreamOnce(ws, 1);
    forall k | 0 <= k <= |fragments| ensures have + |Concat(fragments[..k])| != |Print(ws[0])| {
      if fragments == [] { NothingConcatenated(fragments[..k]); }
    }
  }

  lemma RunFurther(have: nat, fragments: seq<string>, ws: seq<Written>, n: nat)
    requires AllWritable(ws) && fragments != [] && (ws != [] ==> have < |Print(ws[0])|)
    requires LeadingRun(have, fragments, ws, n)
    ensures LeadingRun(have + |fragments[0]|, fragments[1..], ws, n)
  {
    hide Ended, Print;
    var next, rest := have + |fragments[0]|, fragments[1..];
    forall i | 0 <= i < n ensures Ended(next, rest, ws, i) {
      EndedFurther(have, fragments, ws, i);
    }
    if n < |ws| { EndedFurther(have, fragments, ws, n); }
  }

  lemma RunShorter(fragments: seq<string>, ws: seq<Written>, n: nat)
    requires AllWritable(ws) && ws != [] && LeadingRun(|Print(ws[0])|, fragments, ws, n)
    ensures 0 < n <= |ws| && LeadingRun(0, fragments, ws[1..], n - 1)
  {
    hide Ended, Print;
    EndedHere(fragments, ws);
    forall i | 0 <= i < |ws| - 1
      ensures Ended(0, fragments, ws[1..], i) <==> Ended(|Print(ws[0])|, fragments, ws, i + 1)
    {
      EndedShifted(fragments, ws, i + 1);
    }
  }

  lemma RunOver(have: nat, fragments: seq<string>, ws: seq<Written>, n: nat)
    requires AllWritable(ws) && ws != [] && LeadingRun(have, fragments, ws, n)
    requires have > |Print(ws[0])| || (have < |Print(ws[0])| && fragments == [])
    ensures n == 0
  {
    hide Ended, Print;
    NotEnded(have, fragments, ws);
  }

  /** What has come does not run over into a request without a numeric length. */
  ghost predicate Undisturbed(come: nat, ws: seq<Written>, n: nat)
    requires AllWritable(ws) && n <= |ws|
  {
    n == |ws| || LengthDeclared(ws[n].message) || come <= |Stream(ws[..n + 1])|
  }

  lemma NothingFails()
    ensures OnFragment("").0.result == Fail && OnFragment("").1 == ""
  {
    hide WithHeads, ParseUrl, LinesFrom;
    Text.FindNone("", HEADER_END, 0);
  }

  /** A request of which a part has come, or all, or all and more. */
  lemma ArrivedSoFar(w: Written, arrived: string)
    requires Writable(w)
    ensures arrived < Print(w) ==> OnFragment(arrived).0.result == Fail && OnFragment(arrived).1 == arrived
    ensures arrived == Print(w) ==> OnFragment(arrived) == (Outcome(Success, Arrived(w.message)), "")
    ensures Print(w) < arrived && !LengthDeclared(w.message) ==> OnFragment(arrived).0.result == Success
  {
    hide Printed, Printable, PrintedHeader, UnpackedAndCompleted, LengthDeclared, Lengthless;
    if arrived < Print(w) {
      assert arrived == Print(w)[..|arrived|];
      PrefixFails(w.message, w.params, w.heads, |arrived|);
    } else if arrived == Print(w) {
      WholeSucceeds(w.message, w.params, w.heads);
    } else if Print(w) < arrived && !LengthDeclared(w.message) {
      HeaderAndContent(w.message, w.params, w.heads);
      assert PrintedHeader(w.message, w.params, w.heads) + "" == PrintedHeader(w.message, w.params, w.heads);
      assert arrived == Print(w) + arrived[|Print(w)|..];
      LengthlessTakesAll(w.message, w.params, w.heads, arrived[|Print(w)|..]);
    }
  }

  /** A fragment that runs over the end of a request. */
  lemma RunOverServed(w: Written, arrived: string, rest: seq<string>)
    requires Writable(w) && Print(w) < arrived
    ensures LookedUp([OnFragment(arrived).0] + Serve(OnFragment(arrived).1, rest).0) == [] <==> LengthDeclared(w.message)
  {
    hide Printed, Printable, OnFragment, Serve, LookedUp, LengthDeclared, Lengthless, Delimited;
    var step := OnFragment(arrived);
    LookedUpFirst([step.0] + Serve(step.1, rest).0);
    if LengthDeclared(w.message) {
      var extra := arrived[|Print(w)|..];
      assert arrived == Print(w) + extra;
      OverfullFails(w.message, w.params, w.heads, extra);
      OverfullStaysStuck(w.message, w.params, w.heads, extra, rest);
    } else {
      ArrivedSoFar(w, arrived);
    }
  }

  lemma PrefixApart(a: string, b: string, p: string, t: string)
    requires a + b <= p + t
    ensures if |a| < |p| then a < p else if |a| == |p| then a == p && b <= t else p < a
  {
    assert a == (p + t)[..|a|] && (a + b)[|a|..] == b;
  }

  lemma SameBehind<T>(x: T, a: seq<T>, b: seq<T>)
    ensures [x] + a == [x] + b <==> a == b
  {
    assert ([x] + a)[1..] == a && ([x] + b)[1..] == b;
  }

  lemma {:induction false} RunServed(ws: seq<Written>, n: nat, buf: string, fragments: seq<string>)
    requires AllWritable(ws) && buf + Concat(fragments) <= Stream(ws) && (ws != [] ==> |buf| < |Print(ws[0])|)
    requires LeadingRun(|buf|, fragments, ws, n)
    ensures LookedUp(Serve(buf, fragments).0) == Read(ws[..n]) <==> Undisturbed(|buf| + |Concat(fragments)|, ws, n)
    decreases |fragments|
  {
    hide Print, Stream, Read, LeadingRun, Undisturbed, OnFragment, Serve, LookedUp, Concat, Writable;
    if fragments == [] {
      NothingToServe(ws, n, buf, fragments);
    } else {
      var arrived, rest := buf + fragments[0], fragments[1..];
      ServeOnce(buf, fragments);
      ConcatOnce(fragments);
      assert buf + (fragments[0] + Concat(rest)) == arrived + Concat(rest);
      RunFurther(|buf|, fragments, ws, n);
      LookedUpFirst(Serve(buf, fragments).0);
      if ws == [] {
        StreamOfNone(ws);
        NothingFails();
        RunServed(ws, n, arrived, rest);
      } else {
        StreamFirst(ws);
        var p := Print(ws[0]);
        ArrivedSoFar(ws[0], arrived);
        PrefixApart(arrived, Concat(rest), p, Stream(ws[1..]));
        if |arrived| < |p| {
          RunServed(ws, n, arrived, rest);
        } else if |arrived| == |p| {
          RunShorter(rest, ws, n);
          WrittenFirst(ws);
          assert "" + Concat(rest) == Concat(rest);
          RunServed(ws[1..], n - 1, "", rest);
          ReadOnce(ws, n);
          SameBehind(Arrived(ws[0].message), LookedUp(Serve("", rest).0), Read(ws[1..][..n - 1]));
          UndisturbedShifted(|Concat(rest)|, ws, n);
        } else {
          RunOver(|arrived|, rest, ws, n);
          RunOverServed(ws[0], arrived, rest);
          OverAtFirst(|arrived| + |Concat(rest)|, ws);
        }
      }
    }
  }

  lemma NothingToServe(ws: seq<Written>, n: nat, buf: string, fragments: seq<string>)
    requires AllWritable(ws) && fragments == [] && (ws != [] ==> |buf| < |Print(ws[0])|)
    requires LeadingRun(|buf|, fragments, ws, n)
    ensures n == 0 && LookedUp(Serve(buf, fragments).0) == Read(ws[..n]) && Undisturbed(|buf| + |Concat(fragments)|, ws, n)
  {
    if ws != [] {
      RunOver(|buf|, fragments, ws, n);
      StreamOnce(ws, 1);
    }
  }

  lemma StreamOfNone(ws: seq<Written>)
    requires ws == []
    ensures Stream(ws) == ""
  {
  }

  lemma StreamFirst(ws: seq<Written>)
    requires AllWritable(ws) && ws != []
    ensures Stream(ws) == Print(ws[0]) + Stream(ws[1..])
  {
    hide Print;
  }

  lemma WrittenFirst(ws: seq<Written>)
    requires AllWritable(ws) && ws != []
    ensures AllWritable(ws[1..]) && (ws[1..] != [] ==> |Print(ws[1..][0])| > 0)
  {
    if ws[1..] != [] { PrintNotEmpty(ws[1]); }
  }

  lemma UndisturbedShifted(come: nat, ws: seq<Written>, n: nat)
    requires AllWritable(ws) && 0 < n <= |ws|
    ensures Undisturbed(|Print(ws[0])| + come, ws, n) <==> Undisturbed(come, ws[1..], n - 1)
  {
    hide Print, Stream;
    if n < |ws| { StreamOnce(ws, n + 1); }
  }

  lemma OverAtFirst(come: nat, ws: seq<Written>)
    requires AllWritable(ws) && ws != [] && come > |Print(ws[0])|
    ensures Undisturbed(come, ws, 0) <==> LengthDeclared(ws[0].message)
    ensures Read(ws[..0]) == []
  {
    hide Print, Stream, LengthDeclared;
    StreamOnce(ws, 1);
  }

  /**
    At any moment of a stream of delimited requests, cut anywhere, exactly those of its leading run
    have been looked up, in order, if and only if nothing has run over into a request without a numeric
    length. The leading run is as long as the ends of its requests are ends of fragments.
   */
  lemma LeadingRunLookedUpIff(ws: seq<Written>, fragments: seq<string>)
    requires AllWritable(ws) && Concat(fragments) <= Stream(ws)
    ensures var n := RunFrom(fragments, ws, 0);
      LookedUp(Serve("", fragments).0) == Read(ws[..n]) <==> Undisturbed(|Concat(fragments)|, ws, n)
  {
    hide Print, Stream, Read, LeadingRun, Undisturbed, Serve, LookedUp, Concat, RunFrom, Writable;
    assert "" + Concat(fragments) == Concat(fragments);
    if ws != [] { PrintNotEmpty(ws[0]); }
    RunFromLeads(fragments, ws, 0);
    RunServed(ws, RunFrom(fragments, ws, 0), "", fragments);
  }
}
