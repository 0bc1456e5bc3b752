/** The server's step: what has arrived is parsed again with every fragment, until it is a whole request. */
module HttpServer {
  import opened Buffers
  import opened HttpCommon
  import opened HttpRequest
  import opened Options
  import opened RadixTree
  import opened Sequences
  import RadixModel
  import Text

  /** What a fragment led to: the outcome of parsing all that has arrived, and the request made of it. */
  datatype Outcome = Outcome(result: ParseResult, request: Message)

  /** The outcome, and what stays in the buffer. */
  function OnFragment(arrived: string): (Outcome, string) {
    var r := UnpackedAndCompleted(BLANK, arrived);
    (Outcome(r.0, r.1), if r.0 == Success || r.0 == Error then "" else arrived)
  }

  /** The outcomes while fragments arrive one after the other, and what stays in the buffer in the end. */
  function Serve(buf: string, fragments: seq<string>): (seq<Outcome>, string)
    decreases |fragments|
  {
    if fragments == [] then ([], buf)
    else
      var (outcome, left) := OnFragment(buf + fragments[0]);
      var (outcomes, last) := Serve(left, fragments[1..]);
      ([outcome] + outcomes, last)
  }

  lemma ServeOnce(buf: string, fragments: seq<string>)
    requires fragments != []
    ensures var step := OnFragment(buf + fragments[0]);
      Serve(buf, fragments) == ([step.0] + Serve(step.1, fragments[1..]).0, Serve(step.1, fragments[1..]).1)
  {
  }

  /** The other outcome that the source does not guard against. */
  lemma UndefinedIffNoLine(arrived: string)
    ensures OnFragment(arrived).0.result == Undefined <==> HEADER_END <= arrived
  {
    hide Unpacked;
    UndefinedIff(BLANK, arrived);
  }

  // ----- Routes -----

  /** What looking for a handler led to; `Crash` is a look-up in a tree to which nothing was ever added. */
  datatype Lookup<+H> = NoLookup | Crash | NotFound | Found(handler: H)

  /** The look-up of a path among the handlers registered one after the other; a handler may be null. */
  function LookUp<H>(handlers: seq<RadixModel.Update<Option<H>>>, path: string): Lookup<H> {
    if handlers == [] then Crash
    else
      var callback := RadixModel.Get(RadixModel.Build(handlers), path);
      if callback.Some? && callback.value.Some? then Found(callback.value.value) else NotFound
  }

  const METHONS := [Get, Post, Head, Put, Delete, Connect, Options, Methon.Trace, Patch]

  lemma AllMethons()
    ensures forall m :: m in METHONS <==> m != Invalid
  {
    forall m | m != Invalid ensures m in METHONS {
      assert METHONS[0] == Get && METHONS[1] == Post && METHONS[2] == Head && METHONS[3] == Put && METHONS[4] == Delete;
      assert METHONS[5] == Connect && METHONS[6] == Options && METHONS[7] == Methon.Trace && METHONS[8] == Patch;
    }
  }

  /** A tree for every method. */
  method EmptyTrees<V(0,!new)>() returns (trees: map<Methon, RadixTree<V>>)
    ensures forall m :: m in trees <==> m != Invalid
    ensures forall m :: m in trees ==> fresh(trees[m]) && trees[m].root == null && trees[m].Valid() && trees[m].updates == []
    ensures forall m, k :: m in trees && k in trees && m != k ==> trees[m] != trees[k]
  {
    trees := map[];
    var i := 0;
    while i < |METHONS|
      invariant 0 <= i <= |METHONS| && forall m :: m in trees <==> m in METHONS[..i]
      invariant forall m :: m in trees ==> fresh(trees[m]) && trees[m].root == null && trees[m].Valid() && trees[m].updates == []
      invariant forall m, k :: m in trees && k in trees && m != k ==> trees[m] != trees[k]
    {
      var tree := new RadixTree<V>();
      trees := trees[METHONS[i] := tree];
      i := i + 1;
    }
    AllMethons();
    assert METHONS[..|METHONS|] == METHONS;
  }

  class HttpServer<H(0,!new)> {
    const route: map<Methon, RadixTree<Option<H>>>
    ghost var repr: set<object>

    ghost predicate Owned(m: Methon)
      requires m in route
      reads this, repr
    {
      && route[m] in repr && (route[m].root != null ==> route[m].root in repr && route[m].root.repr <= repr)
      && route[m].Valid() && this !in route[m].Footprint()
    }

    ghost predicate Valid()
      reads this, repr
    {
      && (forall m :: m in route <==> m != Invalid)
      && (forall m :: m in route ==> Owned(m))
      && forall m, k :: m in route && k in route && m != k ==> route[m].Footprint() !! route[k].Footprint()
    }

    /** The handlers registered for a method, in order. */
    ghost function Handlers(m: Methon): seq<RadixModel.Update<Option<H>>>
      requires m in route
      reads route[m]
    {
      route[m].updates
    }

    constructor ()
      ensures Valid() && fresh(repr) && forall m :: m in route ==> Handlers(m) == []
    {
      var trees: map<Methon, RadixTree<Option<H>>> := EmptyTrees();
      route := trees;
      repr := set m | m in trees :: trees[m];
    }

    /** Registers a handler; the nine setters of the source differ in the method only. */
    method Register(m: Methon, path: string, callback: Option<H>)
      requires Valid() && m != Invalid
      modifies this`repr, repr
      ensures Valid() && fresh(repr - old(repr))
      ensures Handlers(m) == old(Handlers(m)) + [RadixModel.Update(path, callback)]
      ensures forall k :: k in route && k != m ==> Handlers(k) == old(Handlers(k))
    {
      hide RadixTree.Valid, RadixModel.Build;
      route[m].Set(path, callback);
      repr := repr + route[m].Footprint();
      forall k | k in route && k != m ensures Owned(k) && route[k].Footprint() == old(route[k].Footprint()) {
        assert old(Owned(k));
      }
      assert Owned(m);
      forall k | k in route && k != m ensures route[m].Footprint() !! route[k].Footprint() { }
      hide RadixTree.Footprint, Owned;
    }

    /** A look-up happens exactly when a whole request has arrived, among the handlers of its method. */
    ghost predicate Answers(outcome: Outcome, lookup: Lookup<H>)
      requires Valid()
      reads this, repr
    {
      if outcome.result != Success then lookup == NoLookup
      else outcome.request.methon in route && lookup == LookUp(Handlers(outcome.request.methon), outcome.request.path)
    }

    /** A look-up goes through a null root exactly when a whole request arrives for whose method nothing was registered. */
    lemma CrashIff(outcome: Outcome, lookup: Lookup<H>)
      requires Valid() && Answers(outcome, lookup)
      ensures lookup == Crash <==>
              outcome.result == Success && outcome.request.methon in route && Handlers(outcome.request.methon) == []
    {
    }

    /** However a delimited request is cut, its last fragment crashes the look-up if and only if its method has no route. */
    lemma RequestCrashesIff(s: Sent, lookup: Lookup<H>)
      requires Valid() && Sendable(s)
      requires var outcomes := Serve("", s.fragments).0; outcomes != [] && Answers(outcomes[|outcomes| - 1], lookup)
      ensures s.message.methon in route && (lookup == Crash <==> Handlers(s.message.methon) == [])
    {
      hide Serve, Answers, LookUp;
      ServedOnce(s);
      InRoute(s.message.methon);
      CrashIff(Serve("", s.fragments).0[|s.fragments| - 1], lookup);
    }

    /**
      However a delimited request is cut, nothing is looked up before its last fragment; then it is the handler
      registered last for its method and path that is found, if the routes of that method are plain and that
      handler is not null.
     */
    lemma RequestFindsHandler(s: Sent, lookups: seq<Lookup<H>>, i: nat, handler: H)
      requires Valid() && Sendable(s) && s.message.methon in route && |lookups| == |s.fragments|
      requires var outcomes := Serve("", s.fragments).0;
        |outcomes| == |lookups| && forall j :: 0 <= j < |lookups| ==> Answers(outcomes[j], lookups[j])
      requires forall u :: u in Handlers(s.message.methon) ==> RadixModel.Plain(u.key)
      requires i < |Handlers(s.message.methon)| && Handlers(s.message.methon)[i].key == Rooted(s.message.path)
      requires Handlers(s.message.methon)[i].value == Some(handler)
      requires forall j :: i < j < |Handlers(s.message.methon)| ==> Handlers(s.message.methon)[j].key != Rooted(s.message.path)
      ensures lookups[|lookups| - 1] == Found(handler)
      ensures forall j :: 0 <= j < |lookups| - 1 ==> lookups[j] == NoLookup
    {
      hide Serve, LookUp, Sendable, Valid;
      ServedOnce(s);
      RootedNotEmpty(s.message.path);
      RadixModel.LastUpdateCounts(Handlers(s.message.methon), i);
      LookUpIsRoute(Handlers(s.message.methon), Rooted(s.message.path));
    }

    /** And none is found if none was registered for that path. */
    lemma RequestFindsNothing(s: Sent, lookups: seq<Lookup<H>>)
      requires Valid() && Sendable(s) && s.message.methon in route && |lookups| == |s.fragments|
      requires var outcomes := Serve("", s.fragments).0;
        |outcomes| == |lookups| && forall j :: 0 <= j < |lookups| ==> Answers(outcomes[j], lookups[j])
      requires Handlers(s.message.methon) != [] && forall u :: u in Handlers(s.message.methon) ==> RadixModel.Plain(u.key)
      requires forall u :: u in Handlers(s.message.methon) ==> u.key != Rooted(s.message.path)
      ensures lookups[|lookups| - 1] == NotFound
    {
      hide Serve, LookUp, Sendable, Valid;
      ServedOnce(s);
      RadixModel.NoUpdateCounts(Handlers(s.message.methon), Rooted(s.message.path));
      LookUpIsRoute(Handlers(s.message.methon), Rooted(s.message.path));
    }

    /** A request for a path with a value, as "/value:1234", finds the handler of the path up to the colon. */
    lemma ValueFindsHandler(m: Message, p: string, v: string, params: seq<string>, heads: seq<string>,
                            lookup: Lookup<H>, i: nat, handler: H)
      requires Valid() && m.version != Unknown && m.methon in route && m.path == "/" + p + ":" + v
      requires Lacks(p, ": \r\n") && Lacks(v, " \r\n") && OneWordEach(m.params)
      requires FieldsOk(m.heads) && OrderOf(params, m.params) && OrderOf(heads, m.heads)
      requires |m.content| <= Text.INT_MAX && (SaysLength(m.heads, |m.content|) || SaysNoLength(m.heads))
      requires Answers(OnFragment(Printed(m, params, heads)).0, lookup)
      requires forall u :: u in Handlers(m.methon) ==> RadixModel.Plain(u.key)
      requires i < |Handlers(m.methon)| && Handlers(m.methon)[i].key == "/" + p + ":" && Handlers(m.methon)[i].value == Some(handler)
      requires forall j :: i < j < |Handlers(m.methon)| ==> Handlers(m.methon)[j].key != "/" + p + ":"
      ensures lookup == Found(handler)
    {
      hide Unpacked, Printed, Completed, Params, LookUp, OneWordEach, FieldsOk, SaysLength, SaysNoLength;
      assert Lacks("/" + p, ": \r\n");
      ColonRoundTrip(m, "/" + p, v, params, heads);
      CompletedIff(Unpacked(BLANK, Printed(m, params, heads)).1);
      RadixModel.LastUpdateCounts(Handlers(m.methon), i);
      LookUpIsRoute(Handlers(m.methon), "/" + p + ":");
    }

    lemma RootedNotEmpty(path: string)
      ensures Rooted(path) != ""
    {
    }

    /** As it does for the plainest request there is, when nothing was registered for GET. */
    lemma GetCrashes(lookup: Lookup<H>)
      requires Valid() && Get in route && Handlers(Get) == []
      requires Answers(OnFragment(Printed(BLANK, [], [])).0, lookup)
      ensures lookup == Crash
    {
      hide Unpacked, Printed, LookUp;
      RoundTrip(BLANK, [], []);
      CrashIff(OnFragment(Printed(BLANK, [], [])).0, lookup);
    }

    /** A fragment arrives: it is put to the rest, all is parsed, and a whole request is looked up. */
    method OnMessage(packetbuf: PacketBuffer<char>, data: string) returns (outcome: Outcome, lookup: Lookup<H>)
      requires Valid() && packetbuf.Valid() && packetbuf.Objects() !! repr && this !in packetbuf.Objects()
      modifies packetbuf.Objects()
      ensures Valid() && packetbuf.Valid()
      ensures (outcome, packetbuf.Contents()) ==
              OnFragment(old(packetbuf.Contents()) + if old(packetbuf.Fits(|data|)) then data else "")
      ensures Answers(outcome, lookup)
    {
      hide Valid, PacketBuffer.Valid, PacketBuffer.Contents, PacketBuffer.Fits, UnpackedAndCompleted, LookUp;
      ghost var arrived := packetbuf.Contents() + if packetbuf.Fits(|data|) then data else "";
      var rst := packetbuf.Append(data);
      var size := packetbuf.ReadSize();
      var status, out := packetbuf.ReadBufferN("", size);
      assert out == packetbuf.Contents() == arrived;
      var req := new Request();
      var result := req.UnpackAndCompleted(out);
      outcome, lookup := Outcome(result, req.State()), NoLookup;
      if result == Error {
        rst := packetbuf.Clear();
      } else if result == Success {
        rst := packetbuf.Clear();
        MethonOfSuccess(out);
        InRoute(req.methon);
        lookup := Find(req.methon, req.path);
      }
    }

    lemma InRoute(m: Methon)
      requires Valid() && m != Invalid
      ensures m in route
    {
    }

    method Find(m: Methon, path: string) returns (lookup: Lookup<H>)
      requires Valid() && m != Invalid
      ensures lookup == LookUp(Handlers(m), path)
    {
      var tree := route[m];
      if tree.root == null {
        return Crash;
      }
      var callback := tree.Get(path);
      if callback.Some? && callback.value.Some? {
        lookup := Found(callback.value.value);
      } else {
        lookup := NotFound;
      }
    }

    /** A connection's fragments are served one after the other. */
    method Deliver(packetbuf: PacketBuffer<char>, fragments: seq<string>) returns (outcomes: seq<Outcome>, lookups: seq<Lookup<H>>)
      requires Valid() && packetbuf.Valid() && packetbuf.Objects() !! repr && this !in packetbuf.Objects()
      requires packetbuf.Fits(|Concat(fragments)|)
      modifies packetbuf.Objects()
      ensures Valid() && packetbuf.Valid()
      ensures (outcomes, packetbuf.Contents()) == Serve(old(packetbuf.Contents()), fragments)
      ensures |lookups| == |outcomes| && forall i :: 0 <= i < |lookups| ==> Answers(outcomes[i], lookups[i])
    {
      hide Answers, Valid, PacketBuffer.Valid, PacketBuffer.Contents, OnFragment, LookUp, Serve, Concat;
      outcomes, lookups := [], [];
      var i := 0;
      ghost var was := packetbuf.Contents();
      assert fragments[i..] == fragments;
      assert outcomes + Serve(was, fragments[i..]).0 == Serve(was, fragments[i..]).0;
      while i < |fragments|
        invariant 0 <= i <= |fragments| && |outcomes| == |lookups| == i
        invariant Valid() && packetbuf.Valid() && packetbuf.Fits(|Concat(fragments[i..])|)
        invariant Serve(was, fragments).0 == outcomes + Serve(packetbuf.Contents(), fragments[i..]).0
        invariant Serve(was, fragments).1 == Serve(packetbuf.Contents(), fragments[i..]).1
        invariant forall j :: 0 <= j < i ==> Answers(outcomes[j], lookups[j])
      {
        var rest := fragments[i..];
        assert rest[0] == fragments[i] && rest[1..] == fragments[i + 1..];
        ServeOnce(packetbuf.Contents(), rest);
        ConcatOnce(rest);
        LeftShrinks(packetbuf.Contents() + fragments[i]);
        var outcome, lookup := OnMessage(packetbuf, fragments[i]);
        outcomes, lookups := outcomes + [outcome], lookups + [lookup];
        i := i + 1;
      }
      assert fragments[i..] == [] && outcomes + [] == outcomes;
      NothingServed(packetbuf.Contents());
    }
  }

  lemma LeftShrinks(arrived: string)
    ensures |OnFragment(arrived).1| <= |arrived|
  {
  }

  lemma NothingServed(buf: string)
    ensures Serve(buf, []) == ([], buf)
  {
  }

  lemma MethonOfSuccess(data: string)
    ensures UnpackedAndCompleted(BLANK, data).0 == Success ==> UnpackedAndCompleted(BLANK, data).1.methon != Invalid
  {
    hide SplitHttp, ParseUrl, WithHeads, Completed;
    if SplitHttp(data).Some? && SplitHttp(data).value.1 != [] { MethonOfLine(BLANK, SplitHttp(data).value.1[0]); }
  }

  // ----- Every fragmentation is served alike -----

  /** A request on its way: the message, the orders its maps are printed in, and the fragments it is cut into. */
  datatype Sent = Sent(message: Message, params: seq<string>, heads: seq<string>, fragments: seq<string>)

  ghost predicate Sendable(s: Sent) {
    && Printable(s.message) && Delimited(s.message)
    && OrderOf(s.params, s.message.params) && OrderOf(s.heads, s.message.heads)
    && s.fragments != [] && s.fragments[|s.fragments| - 1] != ""
    && Concat(s.fragments) == Printed(s.message, s.params, s.heads)
  }

  lemma {:induction false} TailNotEmpty(parts: seq<string>)
    requires parts != [] && parts[|parts| - 1] != ""
    ensures Concat(parts) != ""
    decreases |parts|
  {
    if |parts| > 1 { TailNotEmpty(parts[1..]); }
  }

  /** The outcomes of a request cut into `n` fragments: all but the last one fail. */
  ghost predicate LastSucceeds(outcomes: seq<Outcome>, n: nat, m: Message) {
    && 0 < n == |outcomes| && outcomes[n - 1] == Outcome(Success, Arrived(m))
    && forall i :: 0 <= i < n - 1 ==> outcomes[i].result == Fail
  }

  lemma {:induction false} RestServed(buf: string, parts: seq<string>, s: Sent)
    requires Sendable(s) && parts != [] && parts[|parts| - 1] != ""
    requires buf + Concat(parts) == Printed(s.message, s.params, s.heads)
    ensures LastSucceeds(Serve(buf, parts).0, |parts|, s.message) && Serve(buf, parts).1 == ""
    decreases |parts|
  {
    hide Printed, Printable, Delimited, UnpackedAndCompleted, Serve, Concat;
    var all, arrived := Printed(s.message, s.params, s.heads), buf + parts[0];
    ServeOnce(buf, parts);
    ConcatOnce(parts);
    assert buf + (parts[0] + Concat(parts[1..])) == arrived + Concat(parts[1..]);
    if |parts| == 1 {
      NothingConcatenated(parts[1..]);
      assert arrived + "" == arrived;
      WholeSucceeds(s.message, s.params, s.heads);
      NothingServed("");
      assert parts[1..] == [];
    } else {
      TailNotEmpty(parts[1..]);
      assert arrived == all[..|arrived|];
      PrefixFails(s.message, s.params, s.heads, |arrived|);
      RestServed(arrived, parts[1..], s);
      OneMoreFailed(OnFragment(arrived).0, Serve(arrived, parts[1..]).0, |parts| - 1, s.message);
    }
  }

  lemma OneMoreFailed(outcome: Outcome, outcomes: seq<Outcome>, n: nat, m: Message)
    requires outcome.result == Fail && LastSucceeds(outcomes, n, m)
    ensures LastSucceeds([outcome] + outcomes, n + 1, m)
  {
  }

  /** However a delimited request is cut, every parse before its last fragment fails, and the last one recovers it. */
  lemma ServedOnce(s: Sent)
    requires Sendable(s)
    ensures LastSucceeds(Serve("", s.fragments).0, |s.fragments|, s.message) && Serve("", s.fragments).1 == ""
  {
    hide Printed, Printable, Delimited, Serve, Concat;
    assert "" + Concat(s.fragments) == Concat(s.fragments);
    RestServed("", s.fragments, s);
  }

  // ----- A connection's requests -----

  /** The requests for which a handler is looked up. */
  function LookedUp(outcomes: seq<Outcome>): seq<Message>
    decreases |outcomes|
  {
    if outcomes == [] then []
    else (if outcomes[0].result == Success then [outcomes[0].request] else []) + LookedUp(outcomes[1..])
  }

  lemma {:induction false} LookedUpOnce(outcomes: seq<Outcome>, n: nat, m: Message)
    requires LastSucceeds(outcomes, n, m)
    ensures LookedUp(outcomes) == [Arrived(m)]
    decreases n
  {
    if n > 1 {
      LookedUpOnce(outcomes[1..], n - 1, m);
    } else {
      assert LookedUp(outcomes[1..]) == [];
    }
  }

  lemma LookedUpFirst(outcomes: seq<Outcome>)
    requires outcomes != []
    ensures LookedUp(outcomes) ==
            (if outcomes[0].result == Success then [outcomes[0].request] else []) + LookedUp(outcomes[1..])
  {
  }

  lemma {:induction false} LookedUpJoined(a: seq<Outcome>, b: seq<Outcome>)
    ensures LookedUp(a + b) == LookedUp(a) + LookedUp(b)
    decreases |a|
  {
    if a == [] {
      assert a + b == b;
    } else {
      hide LookedUp;
      assert (a + b)[1..] == a[1..] + b && (a + b)[0] == a[0];
      LookedUpFirst(a);
      LookedUpFirst(a + b);
      LookedUpJoined(a[1..], b);
      Associate(if a[0].result == Success then [a[0].request] else [], LookedUp(a[1..]), LookedUp(b));
    }
  }

  lemma {:induction false} ServeJoined(buf: string, a: seq<string>, b: seq<string>)
    ensures Serve(buf, a + b) == (Serve(buf, a).0 + Serve(Serve(buf, a).1, b).0, Serve(Serve(buf, a).1, b).1)
    decreases |a|
  {
    hide Serve, OnFragment;
    if a == [] {
      NothingServed(buf);
      assert a + b == b && [] + Serve(buf, b).0 == Serve(buf, b).0;
    } else {
      var step := OnFragment(buf + a[0]);
      assert (a + b)[1..] == a[1..] + b;
      ServeOnce(buf, a + b);
      ServeOnce(buf, a);
      ServeJoined(step.1, a[1..], b);
      Associate([step.0], Serve(step.1, a[1..]).0, Serve(Serve(buf, a).1, b).0);
    }
  }

  function AllFragments(sent: seq<Sent>): seq<string>
    decreases |sent|
  {
    if sent == [] then [] else sent[0].fragments + AllFragments(sent[1..])
  }

  function AllArrived(sent: seq<Sent>): seq<Message>
    decreases |sent|
  {
    if sent == [] then [] else [Arrived(sent[0].message)] + AllArrived(sent[1..])
  }

  /**
    Of requests that follow each other on a connection, no two sharing a fragment, each is looked
    up exactly once, in order, and nothing is left behind.
   */
  lemma {:induction false} EachLookedUpOnce(sent: seq<Sent>)
    requires forall i :: 0 <= i < |sent| ==> Sendable(sent[i])
    ensures LookedUp(Serve("", AllFragments(sent)).0) == AllArrived(sent) && Serve("", AllFragments(sent)).1 == ""
    decreases |sent|
  {
    if sent != [] {
      hide Sendable, LastSucceeds, Serve, LookedUp;
      var s := sent[0];
      ServedOnce(s);
      LookedUpOnce(Serve("", s.fragments).0, |s.fragments|, s.message);
      ServeJoined("", s.fragments, AllFragments(sent[1..]));
      LookedUpJoined(Serve("", s.fragments).0, Serve("", AllFragments(sent[1..])).0);
      EachLookedUpOnce(sent[1..]);
    }
  }

  // ----- Headers that are none -----

  /** A bad header is forgotten with the fragment that completes it, whatever else is in that fragment. */
  lemma BadHeaderCleared(ls: seq<string>, body: string)
    requires Lines(ls) && Malformed(ls)
    ensures OnFragment(Headed(ls, body)).0.result == Error && OnFragment(Headed(ls, body)).1 == ""
  {
    hide Headed, Malformed, Unpacked;
    ErrorIffMalformed(ls, body);
  }

  lemma HeaderNotYet(ls: seq<string>, body: string, n: nat)
    requires Lines(ls) && n < |Joined(ls)| + 4
    ensures n <= |Headed(ls, body)|
    ensures OnFragment(Headed(ls, body)[..n]).0.result == Fail && OnFragment(Headed(ls, body)[..n]).1 == Headed(ls, body)[..n]
  {
    hide Joined, LinesFrom, ParseUrl, WithHeads;
    HeaderEndsAt(ls, body);
    Text.FindInPrefix(Headed(ls, body), HEADER_END, n);
  }

  /**
    However a bad header arrives, after the fragment that completes it the connection is served as if it
    were new.
   */
  lemma {:induction false} ServedAfterBad(ls: seq<string>, body: string, buf: string, fragments: seq<string>, more: seq<string>)
    requires Lines(ls) && Malformed(ls) && buf + Concat(fragments) == Headed(ls, body) && fragments != []
    requires |buf + Concat(fragments[..|fragments| - 1])| < |Joined(ls)| + 4
    ensures LookedUp(Serve(buf, fragments + more).0) == LookedUp(Serve("", more).0)
    ensures Serve(buf, fragments + more).1 == Serve("", more).1
    decreases |fragments|
  {
    hide Headed, Joined, Malformed, OnFragment, Serve, LookedUp, Concat;
    var arrived, rest := buf + fragments[0], fragments[1..];
    assert (fragments + more)[0] == fragments[0] && (fragments + more)[1..] == rest + more;
    ServeOnce(buf, fragments + more);
    ConcatOnce(fragments);
    assert buf + (fragments[0] + Concat(rest)) == arrived + Concat(rest);
    LookedUpFirst(Serve(buf, fragments + more).0);
    if rest == [] {
      NothingConcatenated(rest);
      assert rest + more == more && arrived + "" == arrived;
      BadHeaderCleared(ls, body);
    } else {
      ConcatOnce(fragments[..|fragments| - 1]);
      assert fragments[..|fragments| - 1][1..] == rest[..|rest| - 1];
      assert buf + (fragments[0] + Concat(rest[..|rest| - 1])) == arrived + Concat(rest[..|rest| - 1]);
      assert arrived == Headed(ls, body)[..|arrived|];
      HeaderNotYet(ls, body, |arrived|);
      ServedAfterBad(ls, body, arrived, rest, more);
    }
  }

  /** So a request that is sent after a bad one is looked up, exactly once. */
  lemma LookedUpAfterBad(ls: seq<string>, body: string, fragments: seq<string>, s: Sent)
    requires Lines(ls) && Malformed(ls) && Concat(fragments) == Headed(ls, body) && fragments != []
    requires |Concat(fragments[..|fragments| - 1])| < |Joined(ls)| + 4
    requires Sendable(s)
    ensures LookedUp(Serve("", fragments + s.fragments).0) == [Arrived(s.message)]
  {
    hide Headed, Joined, Malformed, Serve, LookedUp, Concat, Sendable, LastSucceeds;
    assert "" + Concat(fragments) == Concat(fragments);
    assert "" + Concat(fragments[..|fragments| - 1]) == Concat(fragments[..|fragments| - 1]);
    ServedAfterBad(ls, body, "", fragments, s.fragments);
    ServedOnce(s);
    LookedUpOnce(Serve("", s.fragments).0, |s.fragments|, s.message);
  }

  // ----- Requests that share a fragment -----

  /** Behind a header without a numeric length all that has come is taken for the content. */
  lemma LengthlessTakesAll(m: Message, params: seq<string>, heads: seq<string>, come: string)
    requires Printable(m) && OrderOf(params, m.params) && OrderOf(heads, m.heads) && Lengthless(m)
    ensures OnFragment(PrintedHeader(m, params, heads) + come) == (Outcome(Success, Arrived(m.(content := come))), "")
  {
    hide PrintedHeader, Printable, Lengthless, UnpackedAndCompleted;
    LengthlessSucceedsEarly(m, params, heads, come);
  }

  /** With more behind it than its length declares, a request is not found complete. */
  lemma OverfullFails(m: Message, params: seq<string>, heads: seq<string>, extra: string)
    requires Printable(m) && OrderOf(params, m.params) && OrderOf(heads, m.heads) && LengthDeclared(m) && extra != ""
    ensures OnFragment(Printed(m, params, heads) + extra).0.result == Fail
    ensures OnFragment(Printed(m, params, heads) + extra).1 == Printed(m, params, heads) + extra
  {
    hide Printed, PrintedHeader, Printable, Unpacked, SaysLength, Completed;
    var full := m.(content := m.content + extra);
    HeaderAndContent(m, params, heads);
    HeaderAndContent(full, params, heads);
    SameHeader(m, full, params, heads);
    OtherContentPrintable(m, full);
    assert PrintedHeader(m, params, heads) + m.content + extra == PrintedHeader(m, params, heads) + (m.content + extra);
    RoundTrip(full, params, heads);
    LengthInRange(m.heads, |m.content|);
    CompletedMeans(Arrived(full), |m.content|);
  }

  /** Then nothing is looked up on the connection any more, whatever arrives. */
  lemma {:induction false} OverfullStaysStuck(m: Message, params: seq<string>, heads: seq<string>, extra: string, fragments: seq<string>)
    requires Printable(m) && OrderOf(params, m.params) && OrderOf(heads, m.heads) && LengthDeclared(m) && extra != ""
    ensures LookedUp(Serve(Printed(m, params, heads) + extra, fragments).0) == []
    decreases |fragments|
  {
    hide Printed, Printable, LengthDeclared, OnFragment, Serve, LookedUp;
    var buf := Printed(m, params, heads) + extra;
    if fragments == [] {
      NothingServed(buf);
      NothingLookedUp([]);
    } else {
      ServeOnce(buf, fragments);
      assert buf + fragments[0] == Printed(m, params, heads) + (extra + fragments[0]);
      OverfullFails(m, params, heads, extra + fragments[0]);
      OverfullStaysStuck(m, params, heads, extra + fragments[0], fragments[1..]);
      LookedUpFirst(Serve(buf, fragments).0);
    }
  }

  lemma NothingLookedUp(outcomes: seq<Outcome>)
    requires outcomes == []
    ensures LookedUp(outcomes) == []
  {
  }

  /** Some fragment ends where `s` ends. */
  ghost predicate CutAtEnd(buf: string, fragments: seq<string>, s: string) {
    exists k :: 0 < k <= |fragments| && buf + Concat(fragments[..k]) == s
  }

  lemma CutFurther(buf: string, fragments: seq<string>, s: string)
    requires fragments != []
    ensures CutAtEnd(buf, fragments, s) <==> buf + fragments[0] == s || CutAtEnd(buf + fragments[0], fragments[1..], s)
  {
    hide Concat;
    var arrived, rest := buf + fragments[0], fragments[1..];
    forall k | 0 < k <= |fragments|
      ensures buf + Concat(fragments[..k]) == if k == 1 then arrived else arrived + Concat(rest[..k - 1])
    {
      ConcatOnce(fragments[..k]);
      assert fragments[..k][1..] == rest[..k - 1];
      if k == 1 { NothingConcatenated(rest[..0]); }
      assert buf + (fragments[0] + Concat(rest[..k - 1])) == arrived + Concat(rest[..k - 1]);
      assert fragments[0] + "" == fragments[0];
    }
    if CutAtEnd(arrived, rest, s) {
      var k :| 0 < k <= |rest| && arrived + Concat(rest[..k]) == s;
      assert buf + Concat(fragments[..k + 1]) == s;
    }
    if arrived == s { assert buf + Concat(fragments[..1]) == s; }
  }

  lemma NotCutBefore(buf: string, fragments: seq<string>, s: string)
    requires |buf| > |s| || fragments == []
    ensures !CutAtEnd(buf, fragments, s)
  {
  }

  lemma {:induction false} ServedIffCut(
    m: Message, params: seq<string>, heads: seq<string>, buf: string, fragments: seq<string>)
    requires Printable(m) && OrderOf(params, m.params) && OrderOf(heads, m.heads) && LengthDeclared(m)
    requires |buf| < |Printed(m, params, heads)| && Printed(m, params, heads) <= buf + Concat(fragments)
    ensures LookedUp(Serve(buf, fragments).0) != [] <==> CutAtEnd(buf, fragments, Printed(m, params, heads))
    decreases |fragments|
  {
    hide Printed, Printable, LengthDeclared, UnpackedAndCompleted, Serve, LookedUp, Concat, CutAtEnd;
    var s := Printed(m, params, heads);
    assert buf + "" == buf;
    if fragments == [] {
      NothingConcatenated(fragments);
    } else {
      var arrived, rest := buf + fragments[0], fragments[1..];
      ServeOnce(buf, fragments);
      ConcatOnce(fragments);
      CutFurther(buf, fragments, s);
      assert buf + (fragments[0] + Concat(rest)) == arrived + Concat(rest);
      LookedUpFirst(Serve(buf, fragments).0);
      if |arrived| < |s| {
        assert arrived == s[..|arrived|];
        IsDelimited(m);
        PrefixFails(m, params, heads, |arrived|);
        ServedIffCut(m, params, heads, arrived, rest);
      } else if |arrived| == |s| {
        assert arrived == s;
        IsDelimited(m);
        WholeSucceeds(m, params, heads);
      } else {
        assert arrived == s + arrived[|s|..];
        OverfullFails(m, params, heads, arrived[|s|..]);
        OverfullStaysStuck(m, params, heads, arrived[|s|..], rest);
        NotCutBefore(arrived, rest, s);
      }
    }
  }

  lemma IsDelimited(m: Message)
    requires LengthDeclared(m)
    ensures Delimited(m)
  {
  }

  /**
    At the head of a stream, a request with its length declared leads to a look-up if and only if
    some fragment ends where it ends; otherwise nothing is ever looked up on the connection.
   */
  lemma LookedUpIffCutAtEnd(m: Message, params: seq<string>, heads: seq<string>, fragments: seq<string>)
    requires Printable(m) && OrderOf(params, m.params) && OrderOf(heads, m.heads) && LengthDeclared(m)
    requires Printed(m, params, heads) <= Concat(fragments)
    ensures LookedUp(Serve("", fragments).0) != [] <==> CutAtEnd("", fragments, Printed(m, params, heads))
  {
    hide Printable, LengthDeclared, Serve, LookedUp, Concat, CutAtEnd;
    assert "" + Concat(fragments) == Concat(fragments) && Printed(m, params, heads) != "";
    ServedIffCut(m, params, heads, "", fragments);
  }

  /** With wildcard-free routes, what is called is the handler last registered for the path. */
  lemma LookUpIsRoute<H(!new)>(handlers: seq<RadixModel.Update<Option<H>>>, path: string)
    requires handlers != [] && forall u :: u in handlers ==> RadixModel.Plain(u.key)
    ensures var d := RadixModel.Dictionary(handlers);
      LookUp(handlers, path) == if path != "" && path in d && d[path].Some? then Found(d[path].value) else NotFound
  {
    RadixModel.GetIsLookUp(handlers, path);
  }
}
