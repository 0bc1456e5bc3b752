/** Requests: printed, parsed, and parsed again while they arrive piece by piece. */
module HttpRequest {
  import opened Options
  import opened Sequences
  import opened Text
  import opened HttpCommon

  datatype Methon = Get | Post | Head | Put | Delete | Connect | Options | Trace | Patch | Invalid

  function MethonToStr(m: Methon): string {
    match m
    case Get => "GET"
    case Post => "POST"
    case Head => "HEAD"
    case Put => "PUT"
    case Delete => "DELETE"
    case Connect => "CONNECT"
    case Options => "OPTIONS"
    case Trace => "TRACE"
    case Patch => "PATCH"
    case Invalid => ""
  }

  function StrToMethon(str: string): Methon {
    if str == "GET" then Get
    else if str == "POST" then Post
    else if str == "HEAD" then Head
    else if str == "PUT" then Put
    else if str == "DELETE" then Delete
    else if str == "CONNECT" then Connect
    else if str == "OPTIONS" then Options
    else if str == "TRACE" then Trace
    else if str == "PATCH" then Patch
    else Invalid
  }

  /** What a request holds. */
  datatype Message = Message(
    version: HttpVersion, methon: Methon, path: string, value: string,
    params: Fields, heads: Fields, content: string)

  const BLANK := Message(Http1_1, Get, "", "", map[], map[], "")

  // ----- Printing -----

  /** The path as printed: it always starts with a slash. */
  function Rooted(path: string): string { if path == "" || path[0] != '/' then "/" + path else path }

  function Param(params: Fields, key: string): string
    requires key in params
  {
    key + "=" + params[key]
  }

  /** Each parameter with the given mark in front of it. */
  function Params(params: Fields, keys: seq<string>, mark: string): string
    requires forall k :: k in keys ==> k in params
    decreases |keys|
  {
    if keys == [] then "" else mark + Param(params, keys[0]) + Params(params, keys[1..], "&")
  }

  /** Each parameter with an ampersand behind it. */
  function Marked(params: Fields, keys: seq<string>): string
    requires forall k :: k in keys ==> k in params
    decreases |keys|
  {
    if keys == [] then "" else Param(params, keys[0]) + "&" + Marked(params, keys[1..])
  }

  lemma {:induction false} MarkedIsParams(params: Fields, keys: seq<string>, mark: string)
    requires keys != [] && forall k :: k in keys ==> k in params
    ensures mark + Marked(params, keys) == Params(params, keys, mark) + "&"
    decreases |keys|
  {
    hide Params, Marked, Param;
    var p, rest := Param(params, keys[0]), keys[1..];
    ParamsOnce(params, keys, mark);
    MarkedOnce(params, keys);
    if rest == [] {
      assert p + "&" + "" == p + "&" && mark + p + "" == mark + p;
      Associate(mark, p, "&");
    } else {
      MarkedIsParams(params, rest, "&");
      Associate(p, "&", Marked(params, rest));
      Associate(mark, p, "&" + Marked(params, rest));
      Associate(mark + p, Params(params, rest, "&"), "&");
    }
  }

  lemma MarkedOnce(params: Fields, keys: seq<string>)
    requires keys != [] && forall k :: k in keys ==> k in params
    ensures Marked(params, keys) == Param(params, keys[0]) + "&" + Marked(params, keys[1..])
    ensures keys[1..] == [] ==> Marked(params, keys[1..]) == ""
  {
  }

  /** The first line of a message whose parameters are printed in the given order. */
  function RequestLine(m: Message, order: seq<string>): string
    requires forall k :: k in order ==> k in m.params
  {
    MethonToStr(m.methon) + " " + (Rooted(m.path) + Params(m.params, order, "?")) + " " + HttpVersionToStr(m.version)
  }

  /** A printed message: request line, header lines, empty line and content. */
  function Printed(m: Message, params: seq<string>, heads: seq<string>): string
    requires (forall k :: k in params ==> k in m.params) && forall k :: k in heads ==> k in m.heads
  {
    RequestLine(m, params) + CRLF + Heads(m.heads, heads) + CRLF + m.content
  }

  // ----- Parsing -----

  /** The parameters read from position `i` on, which is that of a mark in front of one. */
  function ParseParams(str: string, i: nat, params: Fields): Fields
    decreases |str| - i
  {
    if i >= |str| then params
    else
      var p := Find(str, "=", i);
      if p == NPOS || p - i < 1 then params
      else
        var q := if Find(str, "&", p) == NPOS then |str| else Find(str, "&", p);
        if q - p < 1 then params
        else ParseParams(str, q, params[str[i + 1..p] := str[p + 1..q]])
  }

  function ParsePath(m: Message, str: string): Message {
    var colon := Find(str, ":", 0);
    if colon != NPOS then m.(params := map[], path := str[..colon + 1], value := str[colon + 1..])
    else
      var mark := Find(str, "?", 0);
      if mark == NPOS then m.(params := map[], path := str)
      else m.(path := str[..mark], params := ParseParams(str, mark, map[]))
  }

  /** The message after its first line, and whether that line was a good one. */
  function ParseUrl(m: Message, str: string): (bool, Message) {
    var words := WordsFrom(str, -1, 0);
    if |words| != 3 then (false, m)
    else if StrToMethon(words[0]) == Invalid then (false, m.(methon := Invalid))
    else (true, ParsePath(m.(methon := StrToMethon(words[0])), words[1]).(version := GetHttpVersion(words[2])))
  }

  function Unpacked(m: Message, data: string): (ParseResult, Message) {
    match SplitHttp(data)
    case None => (Fail, m)
    case Some((pos, lines)) =>
      if lines == [] then (Undefined, m)
      else
        var url := ParseUrl(m, lines[0]);
        if !url.0 then (Error, url.1)
        else
          var fields := WithHeads(url.1.heads, lines[1..]);
          if !fields.0 then (Error, url.1.(heads := fields.1))
          else (Success, url.1.(heads := fields.1, content := if pos + 4 <= |data| then data[pos + 4..] else ""))
  }

  /** How far a message with this header has come: done when its content is as long as it says. */
  function Completed(m: Message): ParseResult {
    match DeclaredLength(m.heads)
    case None => Success
    case Some(text) =>
      match Stoi(text, 10)
      case None => Success
      case Some(n) => if ToUnsigned(n) == |m.content| then Success else Fail
  }

  function UnpackedAndCompleted(m: Message, data: string): (ParseResult, Message) {
    var r := Unpacked(m, data);
    (if r.0 == Success then Completed(r.1) else r.0, r.1)
  }

  class Request {
    var version: HttpVersion
    var methon: Methon
    var path: string
    var value: string
    var params: Fields
    var heads: Fields
    var content: string

    function State(): Message
      reads this
    {
      Message(version, methon, path, value, params, heads, content)
    }

    constructor ()
      ensures State() == BLANK
    {
      version, methon, path, value, params, heads, content := Http1_1, Get, "", "", map[], map[], "";
    }

    /** The parameters, each with an ampersand behind it, put after `data`. */
    method PackParams(data: string, keys: seq<string>) returns (out: string)
      requires forall k :: k in keys ==> k in params
      ensures out == data + Marked(params, keys)
    {
      out := data;
      var i := 0;
      assert keys[0..] == keys;
      while i < |keys|
        invariant 0 <= i <= |keys| && out + Marked(params, keys[i..]) == data + Marked(params, keys)
      {
        ghost var was := out;
        out := out + keys[i];
        out := out + "=";
        out := out + params[keys[i]];
        out := out + "&";
        assert out == was + (Param(params, keys[i]) + "&");
        assert keys[i..][0] == keys[i] && keys[i..][1..] == keys[i + 1..];
        i := i + 1;
      }
      assert keys[|keys|..] == [];
    }

    method PackPathParam(data: string, keys: seq<string>) returns (out: string)
      requires OrderOf(keys, params)
      ensures out == data + (Rooted(path) + Params(params, keys, "?"))
    {
      hide Params, Marked, Rooted;
      out := PackPath(data);
      OrderEmpty(keys);
      if |params| > 0 {
        ghost var base, list := out, Params(params, keys, "?");
        out := PackParams(out + "?", keys);
        MarkedIsParams(params, keys, "?");
        assert out == base + ("?" + Marked(params, keys)) == (base + list) + "&";
        out := out[..|out| - 1];
        assert out == base + list;
      } else {
        NoParams(params, keys, "?");
      }
    }

    method PackPath(data: string) returns (out: string)
      ensures out == data + Rooted(path)
    {
      out := data;
      if path == "" || path[0] != '/' {
        out := out + "/";
      }
      out := out + path;
    }

    lemma OrderEmpty(keys: seq<string>)
      requires OrderOf(keys, params)
      ensures keys == [] <==> |params| == 0
    {
      assert params.Keys == (set k | k in keys);
      assert |keys| > 0 ==> keys[0] in keys;
    }

    /** Prints the request, its maps in whatever order they are gone through. */
    method Pack() returns (data: string)
      ensures exists ps, hs :: OrderOf(ps, params) && OrderOf(hs, heads) && data == Printed(State(), ps, hs)
    {
      hide Params, Heads, Rooted, MethonToStr, HttpVersionToStr;
      var paramKeys := KeysInOrder(params);
      var headKeys := KeysInOrder(heads);
      data := MethonToStr(methon);
      data := data + " ";
      data := PackPathParam(data, paramKeys);
      data := data + " ";
      data := data + HttpVersionToStr(version);
      data := data + CRLF;
      data := AppendHeads(data, heads, headKeys);
      data := data + CRLF;
      data := data + content;
      assert data == Printed(State(), paramKeys, headKeys);
    }

    /** Reads the parameters from the mark at position `start` on. */
    method UnpackParams(str: string, start: nat)
      modifies this`params
      ensures params == ParseParams(str, start, old(params))
    {
      hide Find, Match;
      var i, going := start, true;
      while i < |str| && going
        invariant going ==> ParseParams(str, i, params) == ParseParams(str, start, old(params))
        invariant !going ==> params == ParseParams(str, start, old(params))
        decreases |str| - i, going
      {
        var p := Find(str, "=", i);
        if p == NPOS || p - i < 1 {
          going := false;
        } else {
          var key := str[i + 1..p];
          var q := Find(str, "&", p);
          if q == NPOS {
            q := |str|;
          }
          if q - p < 1 {
            going := false;
          } else {
            params := params[key := str[p + 1..q]];
            i := q;
          }
        }
      }
    }

    method UnpackPath(str: string)
      modifies this
      ensures State() == ParsePath(old(State()), str)
    {
      hide ParseParams, Find, Match;
      params := map[];
      var pos := Find(str, ":", 0);
      if pos != NPOS {
        path := str[..pos + 1];
        value := str[pos + 1..];
      } else {
        pos := Find(str, "?", 0);
        if pos == NPOS {
          path := str;
        } else {
          path := str[..pos];
          UnpackParams(str, pos);
        }
      }
    }

    method UnpackUrl(str: string) returns (ok: bool)
      modifies this
      ensures (ok, State()) == ParseUrl(old(State()), str)
    {
      var rst, out := SplitStrOfSpace(str);
      if |out| != 3 {
        return false;
      }
      methon := StrToMethon(out[0]);
      if methon == Invalid {
        return false;
      }
      UnpackPath(out[1]);
      version := GetHttpVersion(out[2]);
      ok := true;
    }

    method Unpack(data: string) returns (r: ParseResult)
      modifies this
      ensures (r, State()) == Unpacked(old(State()), data)
    {
      hide ParseUrl, WithHeads;
      var pos, headList := SplitHttpOfCRLF(data);
      if pos == NPOS {
        r := Fail;
      } else if headList == [] {
        r := Undefined;
      } else {
        var ok := UnpackUrl(headList[0]);
        if ok {
          ok, heads := ReadHeads(heads, headList[1..]);
        }
        if !ok {
          r := Error;
        } else {
          content := if pos + 4 <= |data| then data[pos + 4..] else "";
          r := Success;
        }
      }
    }

    method UnpackAndCompleted(data: string) returns (rst: ParseResult)
      modifies this
      ensures (rst, State()) == UnpackedAndCompleted(old(State()), data)
    {
      rst := Unpack(data);
      if rst == Success {
        var length := DeclaredLength(heads);
        if length != None {
          var size := Stoi(length.value, 10);
          if size != None {
            return if ToUnsigned(size.value) == |content| then Success else Fail;
          }
        }
      }
    }
  }

  // ----- What is not guarded against -----

  /** Reading the first of no lines is met exactly by what begins with the end of a header. */
  lemma UndefinedIff(m: Message, data: string)
    ensures Unpacked(m, data).0 == Undefined <==> HEADER_END <= data
  {
    hide SplitHttp, ParseUrl, WithHeads;
    NoLinesIff(data);
  }

  // ----- Parsing undoes printing -----

  ghost predicate ParamsOk(params: Fields) {
    forall k :: k in params ==> Lacks(k, "= :\r\n") && Lacks(params[k], "& :\r\n")
  }

  /** The nine names, and no others. */
  lemma MethonIff(s: string)
    ensures StrToMethon(s) == Invalid <==> s !in NAMES
    ensures StrToMethon("GET") == Get && StrToMethon("POST") == Post && StrToMethon("HEAD") == Head
    ensures StrToMethon("PUT") == Put && StrToMethon("DELETE") == Delete && StrToMethon("CONNECT") == Connect
    ensures StrToMethon("OPTIONS") == Options && StrToMethon("TRACE") == Trace && StrToMethon("PATCH") == Patch
  {
    hide StrToMethon;
    MethonNames();
    MethonRecovered(Get);
    MethonRecovered(Post);
    MethonRecovered(Head);
    MethonRecovered(Put);
    MethonRecovered(Delete);
    MethonRecovered(Connect);
    MethonRecovered(Options);
    MethonRecovered(Trace);
    MethonRecovered(Patch);
    NoOtherMethon(s);
  }

  const NAMES: set<string> := {"GET", "POST", "HEAD", "PUT", "DELETE", "CONNECT", "OPTIONS", "TRACE", "PATCH"}

  lemma MethonNames()
    ensures MethonToStr(Get) == "GET" && MethonToStr(Post) == "POST" && MethonToStr(Head) == "HEAD"
    ensures MethonToStr(Put) == "PUT" && MethonToStr(Delete) == "DELETE" && MethonToStr(Connect) == "CONNECT"
    ensures MethonToStr(Options) == "OPTIONS" && MethonToStr(Trace) == "TRACE" && MethonToStr(Patch) == "PATCH"
  {
  }

  lemma NoOtherMethon(s: string)
    ensures StrToMethon(s) == Invalid <==> s !in NAMES
  {
  }

  /** What the line format can carry. */
  ghost predicate Printable(m: Message) {
    && m.version != Unknown && m.methon != Invalid
    && Lacks(m.path, "?: \r\n") && ParamsOk(m.params) && FieldsOk(m.heads)
  }

  /** The message that arrives: the path has gained its leading slash. */
  function Arrived(m: Message): Message { m.(path := Rooted(m.path), value := "") }

  lemma ParamText(params: Fields, key: string)
    requires ParamsOk(params) && key in params
    ensures var p, k := Param(params, key), |key|;
      && p == key + "=" + params[key] && |p| == k + 1 + |params[key]| && p[k] == '=' && p[..k] == key && p[k + 1..] == params[key]
      && (forall i :: 0 <= i < k ==> p[i] != '=') && (forall i :: k < i < |p| ==> p[i] != '&')
      && forall i :: 0 <= i < |p| ==> p[i] != ' ' && p[i] != ':' && p[i] != '\r' && p[i] != '\n'
  {
    var p, k := Param(params, key), |key|;
    assert forall i :: 0 <= i < k ==> p[i] == key[i];
    assert forall i :: k < i < |p| ==> p[i] == params[key][i - k - 1];
  }

  lemma {:induction false} ParamsClean(params: Fields, keys: seq<string>, mark: string)
    requires ParamsOk(params) && (forall k :: k in keys ==> k in params) && (mark == "?" || mark == "&")
    ensures Lacks(Params(params, keys, mark), " :\r\n")
    ensures keys != [] ==> Params(params, keys, mark) != "" && Params(params, keys, mark)[0] == mark[0]
    decreases |keys|
  {
    if keys != [] {
      ParamText(params, keys[0]);
      ParamsClean(params, keys[1..], "&");
    }
  }

  /** One parameter, with its equals sign at `e` and its end at `q`, is read. */
  lemma ParseOne(s: string, i: nat, e: nat, q: nat, got: Fields)
    requires i < e < q <= |s| && s[e] == '=' && forall j :: i <= j < e ==> s[j] != '='
    requires (q < |s| ==> s[q] == '&') && forall j :: e <= j < q ==> s[j] != '&'
    ensures ParseParams(s, i, got) == ParseParams(s, q, got[s[i + 1..e] := s[e + 1..q]])
  {
    hide Find, Match;
    FindChar(s, '=', i, e);
    if q < |s| { FindChar(s, '&', e, q); } else { NoChar(s, '&', e); }
  }

  lemma OneParam(pre: string, params: Fields, keys: seq<string>, mark: string, got: Fields)
    requires ParamsOk(params) && keys != [] && (forall k :: k in keys ==> k in params) && (mark == "?" || mark == "&")
    ensures var s, next := pre + Params(params, keys, mark), pre + mark + Param(params, keys[0]);
      && s == next + Params(params, keys[1..], "&")
      && ParseParams(s, |pre|, got) == ParseParams(s, |next|, got[keys[0] := params[keys[0]]])
  {
    hide ParseParams, Params, Param;
    var p, rest := Param(params, keys[0]), Params(params, keys[1..], "&");
    ParamsOnce(params, keys, mark);
    ParamText(params, keys[0]);
    ParamsClean(params, keys[1..], "&");
    assert pre + (mark + p + rest) == (pre + mark) + p + rest;
    ParseMiddle(pre + mark, p, rest, |keys[0]|, got);
  }

  lemma ParamsOnce(params: Fields, keys: seq<string>, mark: string)
    requires keys != [] && forall k :: k in keys ==> k in params
    ensures Params(params, keys, mark) == mark + Param(params, keys[0]) + Params(params, keys[1..], "&")
    ensures keys[1..] == [] ==> Params(params, keys[1..], "&") == ""
  {
  }

  lemma ParseMiddle(pre: string, p: string, rest: string, k: nat, got: Fields)
    requires pre != "" && pre[|pre| - 1] != '=' && k < |p| && p[k] == '=' && (rest != "" ==> rest[0] == '&')
    requires (forall i :: 0 <= i < k ==> p[i] != '=') && (forall i :: k < i < |p| ==> p[i] != '&')
    ensures var s, e := pre + p + rest, |pre| + |p|;
      ParseParams(s, |pre| - 1, got) == ParseParams(s, e, got[p[..k] := p[k + 1..]])
  {
    hide ParseParams;
    var s, i := pre + p + rest, |pre| - 1;
    assert forall j :: 0 <= j < |p| ==> s[i + 1 + j] == p[j];
    forall j | i < j < i + 1 + |p| ensures s[j] == p[j - i - 1] { }
    assert s[i + 1..i + 1 + k] == p[..k] && s[i + 2 + k..i + 1 + |p|] == p[k + 1..];
    ParseOne(s, i, i + 1 + k, i + 1 + |p|, got);
  }

  lemma FindChar(s: string, c: char, from: nat, r: nat)
    requires from <= r < |s| && s[r] == c && forall i :: from <= i < r ==> s[i] != c
    ensures Find(s, [c], from) == r
  {
    NoMatchWithin(s, [c], from, r);
    assert s[r..r + 1] == [c];
    FindIs(s, [c], from, r);
  }

  lemma NoChar(s: string, c: char, from: nat)
    requires forall i :: from <= i < |s| ==> s[i] != c
    ensures Find(s, [c], from) == NPOS
  {
    if from <= |s| { NoMatchWithin(s, [c], from, |s|); }
    FindNone(s, [c], from);
  }

  lemma {:induction false} ParamsRecovered(pre: string, params: Fields, keys: seq<string>, mark: string, got: Fields)
    requires ParamsOk(params) && (forall k :: k in keys ==> k in params) && (mark == "?" || mark == "&")
    ensures ParseParams(pre + Params(params, keys, mark), |pre|, got) == Overlaid(got, params, keys)
    decreases |keys|
  {
    if keys != [] {
      hide Params, ParseParams, Param;
      OneParam(pre, params, keys, mark, got);
      ParamsRecovered(pre + mark + Param(params, keys[0]), params, keys[1..], "&", got[keys[0] := params[keys[0]]]);
    }
  }

  lemma PathRecovered(m: Message, got: Message, order: seq<string>)
    requires Lacks(m.path, "?: \r\n") && ParamsOk(m.params) && OrderOf(order, m.params)
    ensures ParsePath(got, Rooted(m.path) + Params(m.params, order, "?")) == got.(path := Rooted(m.path), params := m.params)
  {
    hide Find, Match, Params, ParseParams;
    var path, list := Rooted(m.path), Params(m.params, order, "?");
    var s := path + list;
    ParamsClean(m.params, order, "?");
    assert forall i :: 0 <= i < |path| ==> s[i] == path[i];
    assert forall i :: |path| <= i < |s| ==> s[i] == list[i - |path|];
    NoChar(s, ':', 0);
    if order == [] {
      assert list == "" && s == path by { NoParams(m.params, order, "?"); }
      NoChar(s, '?', 0);
      assert m.params == map[];
    } else {
      FindChar(s, '?', 0, |path|);
      ParamsRecovered(path, m.params, order, "?", map[]);
      OverlaidAll(map[], m.params, order);
      assert s[..|path|] == path;
    }
  }

  /** A path with a colon ends there; what follows, parameters and all, is the value. */
  lemma ColonCutsPath(got: Message, p: string, v: string)
    requires Lacks(p, ":")
    ensures ParsePath(got, p + ":" + v) == got.(path := p + ":", value := v, params := map[])
  {
    hide ParseParams, Find, Match;
    var s := p + ":" + v;
    assert forall i :: 0 <= i < |p| ==> s[i] == p[i];
    FindChar(s, ':', 0, |p|);
    assert s[..|p| + 1] == p + ":" && s[|p| + 1..] == v;
  }

  /** Parameters are read up to the first without an equals sign; those before it are kept. */
  lemma ParamsUpToBad(got: Message, m: Message, order: seq<string>, bad: string)
    requires Lacks(m.path, "?: \r\n") && ParamsOk(m.params) && OrderOf(order, m.params) && Lacks(bad, "=:")
    ensures ParsePath(got, Rooted(m.path) + Params(m.params, order, "?") + (if order == [] then "?" else "&") + bad) ==
            got.(path := Rooted(m.path), params := m.params)
  {
    hide Find, Match, Params, ParseParams;
    var path, list, tail := Rooted(m.path), Params(m.params, order, "?"), (if order == [] then "?" else "&") + bad;
    var s := path + list + tail;
    ParamsClean(m.params, order, "?");
    if order == [] { NoParams(m.params, order, "?"); }
    assert path + list + (if order == [] then "?" else "&") + bad == s;
    assert Lacks(path, "?:") && Lacks(list, ":") && Lacks(tail, ":");
    TargetMarks(path, list, tail);
    ParamsBeforeBad(path, m.params, order, "?", tail, map[]);
    OverlaidAll(map[], m.params, order);
  }

  lemma TargetMarks(path: string, list: string, tail: string)
    requires Lacks(path, "?:") && Lacks(list, ":") && Lacks(tail, ":") && list + tail != "" && (list + tail)[0] == '?'
    ensures var s := path + list + tail; Find(s, ":", 0) == NPOS && Find(s, "?", 0) == |path| && s[..|path|] == path
  {
    hide Find, Match;
    var s, rest := path + list + tail, list + tail;
    assert s == path + rest && Lacks(rest, ":");
    assert forall i :: 0 <= i < |path| ==> s[i] == path[i];
    assert forall i :: |path| <= i < |s| ==> s[i] == rest[i - |path|];
    NoChar(s, ':', 0);
    FindChar(s, '?', 0, |path|);
  }

  lemma {:induction false} ParamsBeforeBad(pre: string, params: Fields, keys: seq<string>, mark: string, tail: string, got: Fields)
    requires ParamsOk(params) && (forall k :: k in keys ==> k in params) && (mark == "?" || mark == "&")
    requires tail != "" && Lacks(tail, "=") && (keys != [] ==> tail[0] == '&')
    ensures ParseParams(pre + Params(params, keys, mark) + tail, |pre|, got) == Overlaid(got, params, keys)
    decreases |keys|
  {
    if keys == [] {
      NoParams(params, keys, mark);
      BadParam(pre + Params(params, keys, mark), tail, got);
    } else {
      hide Params, ParseParams, Param;
      OneParamBefore(pre, params, keys, mark, tail, got);
      ParamsBeforeBad(pre + mark + Param(params, keys[0]), params, keys[1..], "&", tail, got[keys[0] := params[keys[0]]]);
    }
  }

  lemma BadParam(pre: string, tail: string, got: Fields)
    requires tail != "" && Lacks(tail, "=")
    ensures ParseParams(pre + tail, |pre|, got) == got
  {
    hide Find, Match;
    assert forall i :: |pre| <= i < |pre + tail| ==> (pre + tail)[i] == tail[i - |pre|];
    NoChar(pre + tail, '=', |pre|);
  }

  lemma OneParamBefore(pre: string, params: Fields, keys: seq<string>, mark: string, tail: string, got: Fields)
    requires ParamsOk(params) && keys != [] && (forall k :: k in keys ==> k in params) && (mark == "?" || mark == "&")
    requires tail != "" && tail[0] == '&'
    ensures var s, next := pre + Params(params, keys, mark) + tail, pre + mark + Param(params, keys[0]);
      && s == next + Params(params, keys[1..], "&") + tail
      && ParseParams(s, |pre|, got) == ParseParams(s, |next|, got[keys[0] := params[keys[0]]])
  {
    hide ParseParams, Params, Param;
    var p, rest := Param(params, keys[0]), Params(params, keys[1..], "&");
    ParamsOnce(params, keys, mark);
    ParamText(params, keys[0]);
    ParamsClean(params, keys[1..], "&");
    assert pre + (mark + p + rest) + tail == (pre + mark) + p + (rest + tail);
    ParseMiddle(pre + mark, p, rest + tail, |keys[0]|, got);
  }

  lemma NoParams(params: Fields, keys: seq<string>, mark: string)
    requires keys == []
    ensures Params(params, keys, mark) == ""
  {
  }

  lemma MethonRecovered(m: Methon)
    requires m != Invalid
    ensures StrToMethon(MethonToStr(m)) == m && MethonToStr(m) != "" && Lacks(MethonToStr(m), " \r\n")
  {
    var s := MethonToStr(m);
    assert |"GET"| == 3 && |"PUT"| == 3 && |"POST"| == 4 && |"HEAD"| == 4 && |"TRACE"| == 5 && |"PATCH"| == 5;
    assert |"DELETE"| == 6 && |"CONNECT"| == 7 && |"OPTIONS"| == 7;
    assert "GET"[0] == 'G' && "PUT"[0] == 'P' && "POST"[0] == 'P' && "HEAD"[0] == 'H' && "TRACE"[0] == 'T' && "PATCH"[0] == 'P';
    assert "CONNECT"[0] == 'C' && "OPTIONS"[0] == 'O';
  }

  lemma LineRecovered(m: Message, got: Message, order: seq<string>)
    requires Printable(m) && OrderOf(order, m.params)
    ensures ParseUrl(got, RequestLine(m, order)) ==
            (true, got.(methon := m.methon, path := Rooted(m.path), params := m.params, version := m.version))
    ensures RequestLine(m, order) != "" && OneLine(RequestLine(m, order))
  {
    hide Params, ParsePath, MethonToStr, StrToMethon, HttpVersionToStr, GetHttpVersion, WordsFrom;
    var a, b, c := MethonToStr(m.methon), Rooted(m.path) + Params(m.params, order, "?"), HttpVersionToStr(m.version);
    MethonRecovered(m.methon);
    VersionRecovered(m.version);
    ParamsClean(m.params, order, "?");
    assert Lacks(Rooted(m.path), " \r\n") && Lacks(b, " \r\n");
    WordsOfThree(a, b, c);
    PathRecovered(m, got.(methon := m.methon), order);
    LacksJoined(a, b, c);
  }

  /** The three words of a request line, whatever the third: only the first can make it a bad one. */
  lemma LineOfThree(got: Message, str: string, s1: string, a: string, s2: string, b: string, c: string)
    requires ThreeWords(str, s1, a, s2, b, c)
    ensures ParseUrl(got, str) ==
            if a in NAMES then (true, ParsePath(got.(methon := StrToMethon(a)), b).(version := GetHttpVersion(c)))
            else (false, got.(methon := Invalid))
  {
    hide ParsePath, StrToMethon, GetHttpVersion, WordsFrom, ThreeWords;
    WordsOfThreeSpaced(str, s1, a, s2, b, c);
    MethonIff(a);
  }

  ghost predicate RequestLineOk(line: string) {
    exists s1, a, s2, b, c :: ThreeWords(line, s1, a, s2, b, c) && a in NAMES
  }

  lemma LineOkIff(got: Message, line: string)
    ensures ParseUrl(got, line).0 <==> RequestLineOk(line)
  {
    hide ParsePath, StrToMethon, GetHttpVersion, WordsFrom, ThreeWords;
    ThreeWordsIff(line);
    if |WordsFrom(line, -1, 0)| == 3 {
      var s1, a, s2, b, c :| ThreeWords(line, s1, a, s2, b, c);
      LineOfThree(got, line, s1, a, s2, b, c);
      if RequestLineOk(line) {
        var t1, x, t2, y, z :| ThreeWords(line, t1, x, t2, y, z) && x in NAMES;
        LineOfThree(got, line, t1, x, t2, y, z);
      }
    }
  }

  lemma MethonOfLine(got: Message, line: string)
    ensures ParseUrl(got, line).0 ==> ParseUrl(got, line).1.methon != Invalid
  {
    hide WordsFrom, StrToMethon, GetHttpVersion, ParseParams, Find;
  }

  /** A line that does not have three words changes nothing. */
  lemma NotThreeWords(got: Message, line: string)
    requires forall s1, a, s2, b, c :: !ThreeWords(line, s1, a, s2, b, c)
    ensures ParseUrl(got, line) == (false, got)
  {
    hide ThreeWords, WordsFrom;
    ThreeWordsIff(line);
  }

  /** A header that cannot be read: its first line is none of a request, or a later one has no separator. */
  ghost predicate Malformed(ls: seq<string>)
    requires ls != []
  {
    !RequestLineOk(ls[0]) || exists i :: 0 < i < |ls| && !Separated(ls[i])
  }

  /** Just such headers are errors, whatever stands behind them. */
  lemma ErrorIffMalformed(ls: seq<string>, body: string)
    requires Lines(ls)
    ensures Unpacked(BLANK, Headed(ls, body)).0 == if Malformed(ls) then Error else Success
  {
    hide ParseUrl, Headed, Joined, WithHeads, Find, RequestLineOk, Separated;
    SplitOfHeaded(ls, body);
    LineOkIff(BLANK, ls[0]);
    HeadsReadIff(ParseUrl(BLANK, ls[0]).1.heads, ls[1..]);
    assert forall i :: 0 < i < |ls| ==> ls[i] == ls[1..][i - 1];
    assert forall i :: 0 <= i < |ls| - 1 ==> ls[1..][i] == ls[i + 1];
  }

  lemma LacksJoined(a: string, b: string, c: string)
    requires Lacks(a, " \r\n") && Lacks(b, " \r\n") && Lacks(c, " \r\n")
    ensures OneLine(a + " " + b + " " + c)
  {
  }

  /** The lines of a printed message. */
  ghost function LinesOf(m: Message, params: seq<string>, heads: seq<string>): seq<string>
    requires (forall k :: k in params ==> k in m.params) && forall k :: k in heads ==> k in m.heads
  {
    [RequestLine(m, params)] + FieldLines(m.heads, heads)
  }

  lemma PrintedInLines(m: Message, params: seq<string>, heads: seq<string>)
    requires Printable(m) && OrderOf(params, m.params) && OrderOf(heads, m.heads)
    ensures Lines(LinesOf(m, params, heads))
    ensures Printed(m, params, heads) == Headed(LinesOf(m, params, heads), m.content)
  {
    hide RequestLine, Heads, Joined, ParseUrl;
    LineRecovered(m, BLANK, params);
    FieldsInLines(RequestLine(m, params), m.heads, heads);
    HeadsJoined(RequestLine(m, params), m.heads, heads);
    EndOfHeader(Joined(LinesOf(m, params, heads)), m.content);
  }

  /** Parsing recovers every message the format can carry, whatever order its maps are printed in. */
  lemma RoundTrip(m: Message, params: seq<string>, heads: seq<string>)
    requires Printable(m) && OrderOf(params, m.params) && OrderOf(heads, m.heads)
    ensures Unpacked(BLANK, Printed(m, params, heads)) == (Success, Arrived(m))
  {
    hide RequestLine, ParseUrl, Headed, Joined, WithHeads, Find, Printed;
    var ls := LinesOf(m, params, heads);
    PrintedInLines(m, params, heads);
    SplitOfHeaded(ls, m.content);
    BodyOfHeaded(ls, m.content);
    LineRecovered(m, BLANK, params);
    assert ls[1..] == FieldLines(m.heads, heads);
    HeadsOfLines(map[], m.heads, heads);
    OverlaidAll(map[], m.heads, heads);
  }

  /** A message whose path begins with a slash is recovered as it was. */
  lemma RootedRoundTrip(m: Message, params: seq<string>, heads: seq<string>)
    requires Printable(m) && OrderOf(params, m.params) && OrderOf(heads, m.heads)
    requires m.path != "" && m.path[0] == '/' && m.value == ""
    ensures Unpacked(BLANK, Printed(m, params, heads)) == (Success, m)
  {
    hide Unpacked, Printed, Printable;
    RoundTrip(m, params, heads);
  }

  /** One whose path does not gains the slash and nothing else. */
  lemma RootlessRoundTrip(m: Message, params: seq<string>, heads: seq<string>)
    requires Printable(m) && OrderOf(params, m.params) && OrderOf(heads, m.heads)
    requires m.path == "" || m.path[0] != '/'
    ensures Unpacked(BLANK, Printed(m, params, heads)) == (Success, m.(path := "/" + m.path, value := ""))
  {
    hide Unpacked, Printed, Printable;
    RoundTrip(m, params, heads);
  }

  /** If its first line is parsed, a printed message is: its fields and content are recovered. */
  lemma PrintedUnpacked(m: Message, params: seq<string>, heads: seq<string>, got: Message)
    requires (forall k :: k in params ==> k in m.params) && FieldsOk(m.heads) && OrderOf(heads, m.heads)
    requires RequestLine(m, params) != "" && OneLine(RequestLine(m, params))
    requires ParseUrl(BLANK, RequestLine(m, params)) == (true, got) && got.heads == map[]
    ensures Unpacked(BLANK, Printed(m, params, heads)) == (Success, got.(heads := m.heads, content := m.content))
  {
    hide RequestLine, ParseUrl, Headed, Joined, WithHeads, Find, Heads, OneLine, FieldsOk;
    var line := RequestLine(m, params);
    var ls := [line] + FieldLines(m.heads, heads);
    HeadsJoined(line, m.heads, heads);
    FieldsInLines(line, m.heads, heads);
    EndOfHeader(Joined(ls), m.content);
    HeadedParts(ls, m.content);
    SplitOfHeaded(ls, m.content);
    BodyOfHeaded(ls, m.content);
    assert ls[1..] == FieldLines(m.heads, heads);
    HeadsOfLines(map[], m.heads, heads);
    OverlaidAll(map[], m.heads, heads);
  }

  /** Nothing that would end a request line or a word in it. */
  ghost predicate OneWordEach(params: Fields) { forall k :: k in params ==> Lacks(k, " \r\n") && Lacks(params[k], " \r\n") }

  /** A path with a colon: it is recovered up to and with the colon, and the value is what was printed after it. */
  lemma ColonRoundTrip(m: Message, p: string, v: string, params: seq<string>, heads: seq<string>)
    requires m.version != Unknown && m.methon != Invalid && m.path == p + ":" + v
    requires Lacks(p, ": \r\n") && Lacks(v, " \r\n") && OneWordEach(m.params)
    requires FieldsOk(m.heads) && OrderOf(params, m.params) && OrderOf(heads, m.heads)
    ensures Unpacked(BLANK, Printed(m, params, heads)) ==
            (Success, m.(path := (if p == "" || p[0] != '/' then "/" + p else p) + ":",
                         value := v + Params(m.params, params, "?"), params := map[]))
  {
    hide RequestLine, ParseUrl, Unpacked, Printed, Params, FieldsOk, OneWordEach, Lacks, OneLine;
    ColonLine(m, BLANK, p, v, params);
    PrintedUnpacked(m, params, heads, ParseUrl(BLANK, RequestLine(m, params)).1);
  }

  lemma {:induction false} ParamsLack(params: Fields, keys: seq<string>, mark: string)
    requires OneWordEach(params) && (forall k :: k in keys ==> k in params) && (mark == "?" || mark == "&")
    ensures Lacks(Params(params, keys, mark), " \r\n")
    decreases |keys|
  {
    if keys != [] { ParamsLack(params, keys[1..], "&"); }
  }

  lemma ColonLine(m: Message, got: Message, p: string, v: string, order: seq<string>)
    requires m.version != Unknown && m.methon != Invalid && m.path == p + ":" + v
    requires Lacks(p, ": \r\n") && Lacks(v, " \r\n") && OneWordEach(m.params) && OrderOf(order, m.params)
    ensures ParseUrl(got, RequestLine(m, order)) ==
            (true, got.(methon := m.methon, path := (if p == "" || p[0] != '/' then "/" + p else p) + ":",
                        value := v + Params(m.params, order, "?"), params := map[], version := m.version))
    ensures RequestLine(m, order) != "" && OneLine(RequestLine(m, order))
  {
    hide Params, ParsePath, MethonToStr, StrToMethon, HttpVersionToStr, GetHttpVersion, WordsFrom, OneWordEach, Lacks, OneLine, Rooted;
    var q, list := if p == "" || p[0] != '/' then "/" + p else p, Params(m.params, order, "?");
    var a, c := MethonToStr(m.methon), HttpVersionToStr(m.version);
    MethonRecovered(m.methon);
    VersionRecovered(m.version);
    ParamsLack(m.params, order, "?");
    ColonTarget(m.path, p, q, v, list);
    ColonCutsPath(got.(methon := m.methon), q, v + list);
    WordsOfLine(a, Rooted(m.path) + list, c);
  }

  lemma ColonTarget(path: string, p: string, q: string, v: string, list: string)
    requires path == p + ":" + v && q == (if p == "" || p[0] != '/' then "/" + p else p)
    requires Lacks(p, ": \r\n") && Lacks(v, " \r\n") && Lacks(list, " \r\n")
    ensures Rooted(path) + list == q + ":" + (v + list) && Lacks(q, ":") && Lacks(Rooted(path) + list, " \r\n")
  {
    assert Rooted(path) == q + ":" + v;
    assert q + ":" + v + list == q + ":" + (v + list);
    hide Rooted, Lacks;
    LacksOfChar('/', ": \r\n");
    LacksOfChar(':', " \r\n");
    LacksBoth("/", p, ": \r\n");
    LacksFewer(q, ": \r\n", ":");
    LacksFewer(q, ": \r\n", " \r\n");
    LacksBoth(q, ":", " \r\n");
    LacksBoth(v, list, " \r\n");
    LacksBoth(q + ":", v + list, " \r\n");
  }

  lemma LacksBoth(a: string, b: string, cs: string)
    requires Lacks(a, cs) && Lacks(b, cs)
    ensures Lacks(a + b, cs)
  {
  }

  lemma LacksFewer(s: string, cs: string, ds: string)
    requires Lacks(s, cs) && forall i :: 0 <= i < |ds| ==> ds[i] in cs
    ensures Lacks(s, ds)
  {
  }

  lemma LacksOfChar(c: char, cs: string)
    requires c !in cs
    ensures Lacks([c], cs)
  {
  }

  lemma WordsOfLine(a: string, b: string, c: string)
    requires a != "" && b != "" && c != "" && Lacks(a, " \r\n") && Lacks(b, " \r\n") && Lacks(c, " \r\n")
    ensures WordsFrom(a + " " + b + " " + c, -1, 0) == [a, b, c] && OneLine(a + " " + b + " " + c)
  {
    hide WordsFrom;
    assert Without(a, ' ') && Without(b, ' ');
    WordsOfThree(a, b, c);
    LacksJoined(a, b, c);
  }

  /** A new request as it is sent. */
  lemma BlankOnTheWire()
    ensures Printed(BLANK, [], []) == "GET / HTTP/1.1\r\n\r\n"
  {
    assert RequestLine(BLANK, []) == "GET" + " " + ("/" + "" + "") + " " + "HTTP/1.1";
  }

  /** A request as it is sent, with a path from the root, two parameters and one field. */
  lemma OnTheWire(m: Message, a: string, b: string, field: string)
    requires m.path != "" && m.path[0] == '/' && a in m.params && b in m.params && field in m.heads && m.version == Http1_1
    ensures Printed(m, [a, b], [field]) ==
            MethonToStr(m.methon) + " " + m.path + "?" + a + "=" + m.params[a] + "&" + b + "=" + m.params[b] + " HTTP/1.1\r\n"
            + field + ": " + m.heads[field] + "\r\n\r\n" + m.content
  {
    hide MethonToStr;
    var list := "?" + a + "=" + m.params[a] + "&" + b + "=" + m.params[b];
    TwoParams(m.params, a, b);
    OneHead(m.heads, field);
    assert RequestLine(m, [a, b]) == MethonToStr(m.methon) + " " + (m.path + list) + " " + "HTTP/1.1";
  }

  lemma TwoParams(params: Fields, a: string, b: string)
    requires a in params && b in params
    ensures Params(params, [a, b], "?") == "?" + a + "=" + params[a] + "&" + b + "=" + params[b]
  {
    assert [a, b][1..] == [b] && [b][1..] == [];
    assert Params(params, [b], "&") == "&" + (b + "=" + params[b]) + Params(params, [], "&");
    assert Params(params, [a, b], "?") == "?" + (a + "=" + params[a]) + Params(params, [b], "&");
  }

  lemma OneHead(heads: Fields, field: string)
    requires field in heads
    ensures Heads(heads, [field]) == field + ": " + heads[field] + "\r\n"
  {
    assert [field][1..] == [];
  }

  /** The declared length is that of the content. */
  ghost predicate LengthDeclared(m: Message) {
    SaysLength(m.heads, |m.content|)
  }

  /** No length is declared, or none that is a number. */
  ghost predicate Lengthless(m: Message) {
    SaysNoLength(m.heads)
  }

  /** The whole can be told from its parts: the length is declared, or there is nothing behind the header. */
  ghost predicate Delimited(m: Message) { LengthDeclared(m) || (m.content == "" && Lengthless(m)) }

  /** A printed message up to the end of its header. */
  function PrintedHeader(m: Message, params: seq<string>, heads: seq<string>): string
    requires (forall k :: k in params ==> k in m.params) && forall k :: k in heads ==> k in m.heads
  {
    Printed(m.(content := ""), params, heads)
  }

  lemma HeaderAndContent(m: Message, params: seq<string>, heads: seq<string>)
    requires (forall k :: k in params ==> k in m.params) && forall k :: k in heads ==> k in m.heads
    ensures Printed(m, params, heads) == PrintedHeader(m, params, heads) + m.content
  {
    hide Params, Heads, Rooted, MethonToStr, HttpVersionToStr;
    var empty := m.(content := "");
    assert RequestLine(empty, params) == RequestLine(m, params);
  }

  /** Parsing a part of a message: nothing until the header is there, and from then on the content so far. */
  lemma CutUnpacked(m: Message, params: seq<string>, heads: seq<string>, n: nat)
    requires Printable(m) && OrderOf(params, m.params) && OrderOf(heads, m.heads) && n <= |Printed(m, params, heads)|
    ensures var h := |PrintedHeader(m, params, heads)|;
      && |Printed(m, params, heads)| == h + |m.content|
      && Unpacked(BLANK, Printed(m, params, heads)[..n]) ==
           if n < h then (Fail, BLANK) else (Success, Arrived(m.(content := m.content[..n - h])))
  {
    hide Printed, PrintedHeader, Printable, Unpacked;
    var head := PrintedHeader(m, params, heads);
    HeaderAndContent(m, params, heads);
    if n < |head| {
      CutInHeader(m, params, heads, n);
    } else {
      var part := m.(content := m.content[..n - |head|]);
      HeaderAndContent(part, params, heads);
      assert PrintedHeader(part, params, heads) == head by { SameHeader(m, part, params, heads); }
      assert (head + m.content)[..n] == head + part.content;
      OtherContentPrintable(m, part);
      RoundTrip(part, params, heads);
    }
  }

  lemma SameHeader(m: Message, part: Message, params: seq<string>, heads: seq<string>)
    requires (forall k :: k in params ==> k in m.params) && forall k :: k in heads ==> k in m.heads
    requires part == m.(content := part.content)
    ensures PrintedHeader(part, params, heads) == PrintedHeader(m, params, heads)
  {
    assert part.(content := "") == m.(content := "");
  }

  lemma OtherContentPrintable(m: Message, part: Message)
    requires Printable(m) && part == m.(content := part.content)
    ensures Printable(part)
  {
  }

  lemma CutInHeader(m: Message, params: seq<string>, heads: seq<string>, n: nat)
    requires Printable(m) && OrderOf(params, m.params) && OrderOf(heads, m.heads)
    requires n < |PrintedHeader(m, params, heads)| <= |Printed(m, params, heads)|
    ensures Unpacked(BLANK, Printed(m, params, heads)[..n]) == (Fail, BLANK)
  {
    hide Printed, Printable, Joined, Find, LinesOf, LinesFrom, ParseUrl, WithHeads;
    var s, ls, empty := Printed(m, params, heads), LinesOf(m, params, heads), m.(content := "");
    OtherContentPrintable(m, empty);
    PrintedInLines(m, params, heads);
    PrintedInLines(empty, params, heads);
    SameLines(m, empty, params, heads);
    HeaderEndsAt(ls, m.content);
    FindInPrefix(s, HEADER_END, n);
  }

  lemma SameLines(m: Message, part: Message, params: seq<string>, heads: seq<string>)
    requires (forall k :: k in params ==> k in m.params) && forall k :: k in heads ==> k in m.heads
    requires part == m.(content := part.content)
    ensures LinesOf(part, params, heads) == LinesOf(m, params, heads)
  {
    hide Params, Rooted, MethonToStr, HttpVersionToStr;
  }

  /** A content is complete if it is as long as the header says, a negative length being that of 64 bits unsigned. */
  lemma CompletedMeans(m: Message, n: int)
    requires SaysLength(m.heads, n)
    ensures Completed(m) == if |m.content| == (if n < 0 then 0x1_0000_0000_0000_0000 + n else n) then Success else Fail
  {
    hide Stoi;
    LengthInRange(m.heads, n);
  }

  lemma CompletedWithoutLength(m: Message)
    requires SaysNoLength(m.heads)
    ensures Completed(m) == Success
  {
    hide Stoi;
  }

  lemma CompletedIff(m: Message)
    requires |m.content| <= INT_MAX
    ensures Completed(m) == if SaysLength(m.heads, |m.content|) || SaysNoLength(m.heads) then Success else Fail
  {
    hide Stoi, SaysLength, SaysNoLength, Completed;
    if SaysNoLength(m.heads) {
      CompletedWithoutLength(m);
    } else {
      var n := SaysSomeLength(m.heads);
      CompletedMeans(m, n);
      LengthInRange(m.heads, n);
      OneLength(m.heads, n, |m.content|);
    }
  }

  lemma OneLength(heads: Fields, n: int, k: int)
    requires SaysLength(heads, n)
    ensures SaysLength(heads, k) <==> k == n
    ensures !SaysNoLength(heads)
  {
    hide Stoi;
  }

  /**
    A message is complete, whatever part of its content has come, if and only if that part is as long as the header
    says or the header says nothing.
   */
  lemma ArrivedCompleteIff(m: Message, params: seq<string>, heads: seq<string>, come: string)
    requires Printable(m) && OrderOf(params, m.params) && OrderOf(heads, m.heads) && |come| <= INT_MAX
    ensures UnpackedAndCompleted(BLANK, PrintedHeader(m, params, heads) + come) ==
            (if SaysLength(m.heads, |come|) || SaysNoLength(m.heads) then Success else Fail, Arrived(m.(content := come)))
  {
    hide Unpacked, Printed, PrintedHeader, Printable, SaysLength, SaysNoLength, Completed;
    var part := m.(content := come);
    OtherContentPrintable(m, part);
    HeaderAndContent(part, params, heads);
    SameHeader(m, part, params, heads);
    RoundTrip(part, params, heads);
    CompletedIff(Arrived(part));
  }

  /** A part of a delimited message is not taken for the whole. */
  lemma PrefixFails(m: Message, params: seq<string>, heads: seq<string>, n: nat)
    requires Printable(m) && OrderOf(params, m.params) && OrderOf(heads, m.heads) && Delimited(m)
    requires n < |Printed(m, params, heads)|
    ensures UnpackedAndCompleted(BLANK, Printed(m, params, heads)[..n]).0 == Fail
  {
    hide Unpacked, Printed, PrintedHeader, Printable, Completed, SaysLength, SaysNoLength;
    var h := |PrintedHeader(m, params, heads)|;
    CutUnpacked(m, params, heads, n);
    if n >= h {
      LengthInRange(m.heads, |m.content|);
      OneLength(m.heads, |m.content|, n - h);
      CompletedIff(Arrived(m.(content := m.content[..n - h])));
    }
  }

  /** The whole message is taken for the whole. */
  lemma WholeSucceeds(m: Message, params: seq<string>, heads: seq<string>)
    requires Printable(m) && OrderOf(params, m.params) && OrderOf(heads, m.heads) && Delimited(m)
    ensures UnpackedAndCompleted(BLANK, Printed(m, params, heads)) == (Success, Arrived(m))
  {
    hide Unpacked, Printed, Printable, Stoi, Completed, SaysLength, SaysNoLength;
    if SaysLength(m.heads, |m.content|) { LengthInRange(m.heads, |m.content|); }
    CompletedIff(Arrived(m));
    RoundTrip(m, params, heads);
  }

  /** Without a numeric length a message succeeds as soon as its header is there, with whatever has come behind it. */
  lemma LengthlessSucceedsEarly(m: Message, params: seq<string>, heads: seq<string>, come: string)
    requires Printable(m) && OrderOf(params, m.params) && OrderOf(heads, m.heads) && Lengthless(m)
    ensures UnpackedAndCompleted(BLANK, PrintedHeader(m, params, heads) + come) == (Success, Arrived(m.(content := come)))
  {
    hide Unpacked, Printed, PrintedHeader, Printable, Completed, SaysNoLength;
    var part := m.(content := come);
    CompletedWithoutLength(Arrived(part));
    OtherContentPrintable(m, part);
    HeaderAndContent(part, params, heads);
    SameHeader(m, part, params, heads);
    RoundTrip(part, params, heads);
  }

  /** Only the whole is taken for the whole if and only if the message is delimited. */
  lemma OnlyWholeSucceedsIff(m: Message, params: seq<string>, heads: seq<string>)
    requires Printable(m) && OrderOf(params, m.params) && OrderOf(heads, m.heads) && |m.content| <= INT_MAX
    ensures var s := Printed(m, params, heads);
      && (forall n :: 0 <= n < |s| ==> UnpackedAndCompleted(BLANK, s[..n]).0 == Fail)
      && UnpackedAndCompleted(BLANK, s).0 == Success
      <==> Delimited(m)
  {
    hide Unpacked, Printed, PrintedHeader, Printable, Completed, SaysLength, SaysNoLength;
    var s, h := Printed(m, params, heads), |PrintedHeader(m, params, heads)|;
    if Delimited(m) {
      forall n | 0 <= n < |s| ensures UnpackedAndCompleted(BLANK, s[..n]).0 == Fail { PrefixFails(m, params, heads, n); }
      WholeSucceeds(m, params, heads);
    } else {
      HeaderAndContent(m, params, heads);
      CutUnpacked(m, params, heads, h);
      RoundTrip(m, params, heads);
      CompletedIff(Arrived(m));
      CompletedIff(Arrived(m.(content := "")));
      assert m.content[..0] == "";
    }
  }
}
