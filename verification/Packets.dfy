/** Length-prefixed frames, and how they are found again in a byte stream. */
module Packets {
  import opened ByteOrder
  import opened Buffers
  import opened Options
  import opened Sequences

  const HEAD: Byte := 0x7e
  const END: Byte := 0xe7
  const MIN_SIZE := 4
  const MAX_PAYLOAD := 65531

  /** A payload between its head byte, its length and its end byte. */
  function Frame(mode: Mode, payload: seq<Byte>): (f: seq<Byte>)
    ensures |f| == |payload| + MIN_SIZE
  {
    [HEAD] + Bytes(mode, |payload|, 2) + payload + [END]
  }

  /** What one turn of the scan comes to. */
  datatype Turn = Short | Found(frame: seq<Byte>, rest: seq<Byte>) | Again(buf: seq<Byte>, data: seq<Byte>)

  /** The length a frame's first three bytes announce. */
  function Announced(mode: Mode, head: seq<Byte>): nat
    requires |head| >= 3
  {
    Number(mode, head[1..3])
  }

  /** What remains after clearing `n` bytes, or all if there are fewer. */
  function Cleared(buf: seq<Byte>, n: nat): seq<Byte> { if n > |buf| then [] else buf[n..] }

  /** A frame of announced length `size`: its head, and what follows the head if that much is there. */
  function Whole(head: seq<Byte>, rest: seq<Byte>, size: nat): (w: seq<Byte>)
    ensures |w| >= |head|
  {
    if size + 1 > |rest| then head else head + rest[..size + 1]
  }

  /** The head has been read and taken off the buffer, which now holds `rest`. */
  function StepBody(head: seq<Byte>, rest: seq<Byte>, size: nat): Turn
    requires |head| >= 3
  {
    var whole := Whole(head, rest, size);
    if whole[|whole| - 1] == END then Found(whole, Cleared(rest, size + 1)) else Again(rest, whole)
  }

  /** Three more bytes have been read from the buffer `buf`, and `head` is all that has been read. */
  function StepHead(mode: Mode, buf: seq<Byte>, head: seq<Byte>): Turn
    requires |buf| >= MIN_SIZE && |head| >= 3
  {
    if head[0] != HEAD then Again(buf[1..], [])
    else if |buf| < (Announced(mode, head) + MIN_SIZE) % 0x1_0000 then Short
    else StepBody(head, buf[3..], Announced(mode, head))
  }

  /**
    One turn of the scan over the buffered bytes `buf`; `data` is what it has read so far. A frame
    with a wrong end byte stays in `data`.
   */
  function Step(mode: Mode, buf: seq<Byte>, data: seq<Byte>): (t: Turn)
    ensures t.Again? ==> |t.buf| < |buf|
  {
    if |buf| < MIN_SIZE then Short else StepHead(mode, buf, data + buf[..3])
  }

  /** The scan of `readFromBuffer`: the frame found, if any, and the bytes left in the buffer. */
  function Scan(mode: Mode, buf: seq<Byte>, data: seq<Byte>): (Option<seq<Byte>>, seq<Byte>)
    decreases |buf|
  {
    match Step(mode, buf, data)
    case Short => (None, buf)
    case Found(frame, rest) => (Some(frame), rest)
    case Again(buf', data') => Scan(mode, buf', data')
  }

  ghost predicate Suffix(a: seq<Byte>, b: seq<Byte>) { |a| <= |b| && a == b[|b| - |a|..] }

  lemma StepShrinks(mode: Mode, buf: seq<Byte>, data: seq<Byte>)
    ensures match Step(mode, buf, data)
            case Short => true
            case Found(frame, rest) => Suffix(rest, buf) && |rest| + MIN_SIZE <= |buf|
            case Again(buf', data') => Suffix(buf', buf)
  {
  }

  /** On every byte stream a suffix is left, and at least four bytes go with every frame. */
  lemma {:induction false} ScanShrinks(mode: Mode, buf: seq<Byte>, data: seq<Byte>)
    ensures var (found, rest) := Scan(mode, buf, data);
      Suffix(rest, buf) && (found.Some? ==> |rest| + MIN_SIZE <= |buf|)
    decreases |buf|
  {
    StepShrinks(mode, buf, data);
    match Step(mode, buf, data)
    case Short =>
    case Found(frame, rest) =>
    case Again(buf', data') => ScanShrinks(mode, buf', data');
  }

  class Packet {
    var buffer: seq<Byte>
    var dataSize: nat

    constructor ()
      ensures buffer == [] && dataSize == 0
    {
      buffer, dataSize := [], 0;
    }

    method Pack(mode: Mode, data: seq<Byte>)
      requires |data| < 0x1_0000
      modifies this
      ensures buffer == Frame(mode, data) && dataSize == |data|
    {
      dataSize := |data|;
      var bytes := new Byte[|data| + MIN_SIZE];
      bytes[0] := HEAD;
      var length := new Byte[2];
      PackNum(mode, length, |data|, 2);
      assert length[..2] == length[..];
      bytes[1], bytes[2] := length[0], length[1];
      forall i | 0 <= i < |data| {
        bytes[3 + i] := data[i];
      }
      bytes[|data| + 3] := END;
      buffer := bytes[..];
      FrameOfParts(mode, data, buffer);
    }

    /** Takes over the bytes of a frame. */
    method Swap(str: seq<Byte>)
      modifies this
      ensures buffer == str && dataSize == (|str| - MIN_SIZE) % 0x1_0000
    {
      buffer := str;
      dataSize := (|buffer| - MIN_SIZE) % 0x1_0000;
    }

    /** As many bytes behind the head and the length as the data size says: of a packed payload, the payload. */
    method GetData() returns (data: seq<Byte>)
      requires 3 + dataSize <= |buffer|
      ensures data == buffer[3..3 + dataSize]
      ensures forall mode, p :: buffer == Frame(mode, p) && dataSize == |p| ==> data == p
    {
      data := buffer[3..3 + dataSize];
      forall mode, p | buffer == Frame(mode, p) && dataSize == |p| ensures data == p { FramePayload(mode, p); }
    }
  }

  lemma FrameOfParts(mode: Mode, p: seq<Byte>, s: seq<Byte>)
    requires |s| == |p| + MIN_SIZE && s[0] == HEAD && s[|p| + 3] == END
    requires s[1] == Bytes(mode, |p|, 2)[0] && s[2] == Bytes(mode, |p|, 2)[1]
    requires forall i :: 0 <= i < |p| ==> s[3 + i] == p[i]
    ensures s == Frame(mode, p)
  {
    hide Bytes;
    var f := Frame(mode, p);
    assert f[0] == HEAD && f[1] == Bytes(mode, |p|, 2)[0] && f[2] == Bytes(mode, |p|, 2)[1] && f[|p| + 3] == END;
    assert forall i :: 0 <= i < |p| ==> f[3 + i] == p[i];
    forall i | 3 <= i < |p| + 3 ensures s[i] == f[i] {
      assert s[3 + (i - 3)] == p[i - 3] == f[3 + (i - 3)];
    }
  }

  lemma FramePayload(mode: Mode, p: seq<Byte>)
    ensures Frame(mode, p)[3..3 + |p|] == p
  {
    hide Bytes;
    var f := Frame(mode, p);
    assert forall i :: 0 <= i < |p| ==> f[3 + i] == p[i];
  }

  /** How the loop of `readFromBuffer` stands: given up, done, or going on with what it has read. */
  datatype Status = GivenUp | Done(frame: seq<Byte>) | GoingOn(data: seq<Byte>)

  /** That the status and the buffer are as after the given turn; a turn that comes short changes nothing. */
  ghost predicate After(turn: Turn, was: seq<Byte>, status: Status, now: seq<Byte>) {
    match turn
    case Short => status == GivenUp && now == was
    case Found(frame, rest) => status == Done(frame) && now == rest
    case Again(buf, data) => status == GoingOn(data) && now == buf
  }

  lemma BodyStep(head: seq<Byte>, rest: seq<Byte>, size: nat)
    requires |head| >= 3
    ensures var whole := if size + 1 > |rest| then head else head + rest[..size + 1];
      && |whole| > 0 && (whole[|whole| - 1] != END ==> StepBody(head, rest, size) == Again(rest, whole))
      && (whole[|whole| - 1] == END ==>
            StepBody(head, rest, size) == Found(whole, if size + 1 > |rest| then [] else rest[size + 1..]))
  {
  }

  method ReadBody(packetbuf: PacketBuffer<Byte>, head: seq<Byte>, size: nat) returns (status: Status)
    requires packetbuf.Valid() && |packetbuf.Contents()| >= 3 && |head| >= 3
    modifies packetbuf.Objects()
    ensures packetbuf.Valid()
    ensures After(StepBody(head, old(packetbuf.Contents())[3..], size), [], status, packetbuf.Contents())
  {
    hide PacketBuffer.Contents, PacketBuffer.Valid;
    hide StepBody;
    ghost var rest := packetbuf.Contents()[3..];
    var done := packetbuf.ClearBufferN(3);
    assert packetbuf.Contents() == rest;
    var whole;
    done, whole := packetbuf.ReadBufferN(head, size + 1);
    BodyStep(head, rest, size);
    if whole[|whole| - 1] == END {
      done := packetbuf.ClearBufferN(size + 1);
      status := Done(whole);
    } else {
      status := GoingOn(whole);
    }
  }

  method ReadHead(mode: Mode, packetbuf: PacketBuffer<Byte>, size: nat, head: seq<Byte>) returns (status: Status)
    requires packetbuf.Valid() && size == |packetbuf.Contents()| >= MIN_SIZE && |head| >= 3
    modifies packetbuf.Objects()
    ensures packetbuf.Valid()
    ensures After(StepHead(mode, old(packetbuf.Contents()), head), old(packetbuf.Contents()), status, packetbuf.Contents())
  {
    hide PacketBuffer.Contents, PacketBuffer.Valid, Number, StepBody;
    if head[0] != HEAD {
      var done := packetbuf.ClearBufferN(1);
      status := GoingOn([]);
    } else {
      var dataSize := UnpackNum(mode, head[1..3]);
      var msgsize := (dataSize + MIN_SIZE) % 0x1_0000;
      if size < msgsize {
        status := GivenUp;
      } else {
        status := ReadBody(packetbuf, head, dataSize);
        assert StepBody(head, old(packetbuf.Contents())[3..], dataSize) != Short by { BodyNotShort(head, old(packetbuf.Contents())[3..], dataSize); }
      }
    }
  }

  lemma BodyNotShort(head: seq<Byte>, rest: seq<Byte>, size: nat)
    requires |head| >= 3
    ensures StepBody(head, rest, size) != Short
  {
  }

  /** One turn of the loop of `readFromBuffer`. */
  method ReadTurn(mode: Mode, packetbuf: PacketBuffer<Byte>, data: seq<Byte>) returns (status: Status)
    requires packetbuf.Valid()
    modifies packetbuf.Objects()
    ensures packetbuf.Valid()
    ensures After(Step(mode, old(packetbuf.Contents()), data), old(packetbuf.Contents()), status, packetbuf.Contents())
  {
    hide PacketBuffer.Contents, PacketBuffer.Valid, StepHead;
    var size := packetbuf.ReadSize();
    if size < MIN_SIZE {
      return GivenUp;
    }
    var done, head := packetbuf.ReadBufferN(data, 3);
    status := ReadHead(mode, packetbuf, size, head);
  }

  method ReadFromBuffer(mode: Mode, packetbuf: PacketBuffer<Byte>, out: Packet) returns (rst: int)
    requires packetbuf.Valid() && out !in packetbuf.Objects()
    modifies packetbuf.Objects(), out
    ensures packetbuf.Valid()
    ensures var (found, rest) := Scan(mode, old(packetbuf.Contents()), []);
      && packetbuf.Contents() == rest && rst == (if found.Some? then OK else REFUSED)
      && (found.Some? ==> out.buffer == found.value && out.dataSize == (|found.value| - MIN_SIZE) % 0x1_0000)
      && (found.None? ==> out.buffer == old(out.buffer) && out.dataSize == old(out.dataSize))
  {
    hide Step, PacketBuffer.Contents, PacketBuffer.Valid;
    var status := GoingOn([]);
    ghost var goal := Scan(mode, packetbuf.Contents(), []);
    while status.GoingOn?
      invariant packetbuf.Valid() && out.buffer == old(out.buffer) && out.dataSize == old(out.dataSize)
      invariant status.GoingOn? ==> Scan(mode, packetbuf.Contents(), status.data) == goal
      invariant !status.GoingOn? ==> goal == (if status.Done? then Some(status.frame) else None, packetbuf.Contents())
      decreases if status.GoingOn? then |packetbuf.Contents()| + 1 else 0
    {
      status := ReadTurn(mode, packetbuf, status.data);
    }
    if status.Done? {
      out.Swap(status.frame);
    }
    rst := if status.Done? then OK else REFUSED;
  }

  // ----- Draining -----

  /** What the caller's loop reads until a read is refused: the frames, and the bytes left. */
  function Drain(mode: Mode, buf: seq<Byte>): (seq<seq<Byte>>, seq<Byte>)
    decreases |buf|
  {
    var scan := Scan(mode, buf, []);
    ScanShrinks(mode, buf, []);
    if scan.0.None? then ([], scan.1) else
      var d := Drain(mode, scan.1);
      ([scan.0.value] + d.0, d.1)
  }

  lemma DrainOnce(mode: Mode, buf: seq<Byte>)
    ensures var scan := Scan(mode, buf, []);
      if scan.0.None? then Drain(mode, buf) == ([], scan.1)
      else |scan.1| < |buf| && Drain(mode, buf) == ([scan.0.value] + Drain(mode, scan.1).0, Drain(mode, scan.1).1)
  {
    ScanShrinks(mode, buf, []);
  }

  /** What `getData` gives of a frame that was taken over. */
  function Payload(frame: seq<Byte>): seq<Byte> {
    if |frame| < MIN_SIZE then [] else frame[3..3 + (|frame| - MIN_SIZE) % 0x1_0000]
  }

  function Payloads(frames: seq<seq<Byte>>): (ps: seq<seq<Byte>>)
    ensures |ps| == |frames| && forall i :: 0 <= i < |frames| ==> ps[i] == Payload(frames[i])
  {
    if frames == [] then [] else [Payload(frames[0])] + Payloads(frames[1..])
  }

  lemma NumberOfTwo(mode: Mode, s: seq<Byte>)
    requires |s| == 2
    ensures var a: int, b: int := s[0], s[1];
      Number(mode, s) == if mode == LittleEndian then a + 256 * b else b + 256 * a
  {
    var t := if mode == LittleEndian then s else Reverse(s);
    assert Value(t) == t[0] + 256 * Value(t[1..]) && Value(t[1..]) == t[1] + 256 * Value(t[1..][1..]);
  }

  /** A length so large that the message size wraps around shows in the third byte of the head. */
  lemma AnnouncedRange(mode: Mode, head: seq<Byte>)
    requires |head| >= 3
    ensures Announced(mode, head) < 0x1_0000 && (Announced(mode, head) > MAX_PAYLOAD ==> head[2] != END)
  {
    hide Number;
    var s := head[1..3];
    assert s[0] == head[1] && s[1] == head[2];
    NumberOfTwo(mode, s);
  }

  lemma BodyIsLong(head: seq<Byte>, rest: seq<Byte>, size: nat)
    requires |head| >= 3 && (size < |rest| || head[2] != END || |head| > 3)
    ensures match StepBody(head, rest, size)
            case Short => false
            case Found(frame, rest') => |frame| >= MIN_SIZE
            case Again(buf', data') => buf' == rest && |data'| >= 3 && data'[0] == head[0]
  {
  }

  lemma StepIsLong(mode: Mode, buf: seq<Byte>, data: seq<Byte>)
    requires data == [] || (|data| >= 3 && data[0] == HEAD)
    ensures match Step(mode, buf, data)
            case Short => true
            case Found(frame, rest) => |frame| >= MIN_SIZE
            case Again(buf', data') => |buf'| < |buf| && (data' == [] || (|data'| >= 3 && data'[0] == HEAD))
  {
    hide Number, StepBody, Announced;
    if |buf| >= MIN_SIZE {
      var head := data + buf[..3];
      var size := Announced(mode, head);
      AnnouncedRange(mode, head);
      if size <= MAX_PAYLOAD { SmallRemainder(size + MIN_SIZE, 0x1_0000); }
      if (size + MIN_SIZE) % 0x1_0000 <= |buf| { BodyIsLong(head, buf[3..], size); }
    }
  }

  /** No frame is found that is shorter than the shortest. */
  lemma {:induction false} FoundIsLong(mode: Mode, buf: seq<Byte>, data: seq<Byte>)
    requires data == [] || (|data| >= 3 && data[0] == HEAD)
    ensures var found := Scan(mode, buf, data).0; found.Some? ==> |found.value| >= MIN_SIZE
    decreases |buf|
  {
    hide Step;
    StepIsLong(mode, buf, data);
    var t := Step(mode, buf, data);
    if t.Again? { FoundIsLong(mode, t.buf, t.data); }
  }

  lemma PayloadsMore(frames: seq<seq<Byte>>, frame: seq<Byte>)
    ensures Payloads(frames + [frame]) == Payloads(frames) + [Payload(frame)]
  {
    hide Payload;
    var ps, qs := Payloads(frames + [frame]), Payloads(frames) + [Payload(frame)];
    assert forall i :: 0 <= i < |ps| ==> ps[i] == qs[i];
  }

  /** A message arrives: it is appended, and the buffer is read until no frame is left in it. */
  method OnMessage(mode: Mode, packetbuf: PacketBuffer<Byte>, fragment: seq<Byte>, packet: Packet)
    returns (frames: seq<seq<Byte>>, payloads: seq<seq<Byte>>)
    requires packetbuf.Valid() && packetbuf.Fits(|fragment|) && packet !in packetbuf.Objects()
    modifies packetbuf.Objects(), packet
    ensures packetbuf.Valid() && payloads == Payloads(frames)
    ensures (frames, packetbuf.Contents()) == Drain(mode, old(packetbuf.Contents()) + fragment)
  {
    hide Scan, Drain, Payloads, PacketBuffer.Contents, PacketBuffer.Valid, PacketBuffer.Fits;
    ghost var whole := packetbuf.Contents() + fragment;
    var rst := packetbuf.Append(fragment);
    frames, payloads := [], [];
    while true
      invariant packetbuf.Valid() && payloads == Payloads(frames)
      invariant Drain(mode, whole).0 == frames + Drain(mode, packetbuf.Contents()).0
      invariant Drain(mode, whole).1 == Drain(mode, packetbuf.Contents()).1
      decreases |packetbuf.Contents()|
    {
      ghost var buf := packetbuf.Contents();
      DrainOnce(mode, buf);
      FoundIsLong(mode, buf, []);
      rst := ReadFromBuffer(mode, packetbuf, packet);
      if rst != OK {
        assert Drain(mode, whole).0 == frames && Drain(mode, whole).1 == packetbuf.Contents();
        break;
      }
      var data := packet.GetData();
      PayloadsMore(frames, packet.buffer);
      Associate(frames, [packet.buffer], Drain(mode, packetbuf.Contents()).0);
      frames, payloads := frames + [packet.buffer], payloads + [data];
    }
  }

  // ----- Framing -----

  ghost predicate NoHead(s: seq<Byte>, n: int) { forall i :: 0 <= i < n && i < |s| ==> s[i] != HEAD }

  ghost predicate Sendable(ps: seq<seq<Byte>>) { forall i :: 0 <= i < |ps| ==> |ps[i]| <= MAX_PAYLOAD }

  /** `s` carries the frames of the payloads `ps` in order, with nothing between them that holds a head byte. */
  ghost predicate Carries(mode: Mode, s: seq<Byte>, ps: seq<seq<Byte>>)
    decreases |ps|
  {
    if ps == [] then NoHead(s, |s|)
    else exists n :: StartsAt(s, Frame(mode, ps[0]), n) && Carries(mode, s[n + |Frame(mode, ps[0])|..], ps[1..])
  }

  /** The frame `f` is in `s` after `n` bytes of which none is a head byte. */
  ghost predicate StartsAt(s: seq<Byte>, f: seq<Byte>, n: int) {
    0 <= n && n + |f| <= |s| && NoHead(s, n) && s[n..n + |f|] == f
  }

  /** Garbage and frames put one after the other are such a stream. */
  lemma CarriesMore(mode: Mode, garbage: seq<Byte>, p: seq<Byte>, s: seq<Byte>, ps: seq<seq<Byte>>)
    requires NoHead(garbage, |garbage|) && Carries(mode, s, ps)
    ensures Carries(mode, garbage + Frame(mode, p) + s, [p] + ps)
  {
    var f, n := Frame(mode, p), |garbage|;
    var t, qs := garbage + f + s, [p] + ps;
    assert t[n + |f|..] == s && t[n..n + |f|] == f;
    assert StartsAt(t, f, n);
    assert qs[0] == p && qs[1..] == ps;
  }

  /** A byte that is not a head byte in front of a stream may go. */
  lemma CarriesWithout(mode: Mode, s: seq<Byte>, ps: seq<seq<Byte>>)
    requires s != [] && s[0] != HEAD && Carries(mode, s, ps)
    ensures Carries(mode, s[1..], ps)
  {
    hide Frame;
    if ps != [] {
      var f := Frame(mode, ps[0]);
      var n :| StartsAt(s, f, n) && Carries(mode, s[n + |f|..], ps[1..]);
      hide NoHead;
      FrameStarts(mode, ps[0]);
      StartsLater(s, f, n);
      Behind(s, n + |f|);
    }
  }

  lemma FrameStarts(mode: Mode, p: seq<Byte>)
    ensures Frame(mode, p)[0] == HEAD
  {
  }

  lemma Behind(s: seq<Byte>, n: nat)
    requires 0 < n <= |s|
    ensures s[1..][n - 1..] == s[n..]
  {
  }

  lemma StartsLater(s: seq<Byte>, f: seq<Byte>, n: int)
    requires StartsAt(s, f, n) && s != [] && f != [] && f[0] == HEAD && s[0] != HEAD
    ensures n > 0 && StartsAt(s[1..], f, n - 1)
  {
    assert s[n..n + |f|][0] == s[n];
    assert s[1..][n - 1..n - 1 + |f|] == s[n..n + |f|];
  }

  /** A stream that begins with a head byte begins with a frame. */
  lemma CarriesFrame(mode: Mode, s: seq<Byte>, ps: seq<seq<Byte>>)
    requires s != [] && s[0] == HEAD && Carries(mode, s, ps)
    ensures ps != [] && Frame(mode, ps[0]) <= s && Carries(mode, s[|Frame(mode, ps[0])|..], ps[1..])
  {
    if ps != [] {
      var f := Frame(mode, ps[0]);
      var n :| StartsAt(s, f, n) && Carries(mode, s[n + |f|..], ps[1..]);
      assert n == 0 && s[0..|f|] == s[..|f|];
    }
  }

  lemma CarriesLength(mode: Mode, s: seq<Byte>, ps: seq<seq<Byte>>)
    requires Carries(mode, s, ps)
    ensures ps != [] ==> |s| >= MIN_SIZE
  {
  }

  lemma FrameParts(h: seq<Byte>, b: seq<Byte>, p: seq<Byte>, e: seq<Byte>)
    requires |h| == 1 && |b| == 2
    ensures var f := h + b + p + e; f[..3] == h + b && f[..3][1..3] == b && f[3..] == p + e && f[..3][0] == h[0]
  {
    assert (h + b + p + e)[..3] == h + b;
  }

  /** The beginning of a frame shows its length. */
  lemma FrameHead(mode: Mode, p: seq<Byte>)
    requires |p| < 0x1_0000
    ensures var head := Frame(mode, p)[..3]; head[0] == HEAD && Announced(mode, head) == |p|
    ensures Frame(mode, p)[3..] == p + [END]
  {
    hide Bytes, Number;
    var b := Bytes(mode, |p|, 2);
    FrameParts([HEAD], b, p, [END]);
    assert |p| < Pow256(2) by { assert Pow256(1) == 256; }
    RoundTrip(mode, |p|, 2);
  }

  lemma SameHead(buf: seq<Byte>, f: seq<Byte>)
    requires |buf| >= 3 && |f| >= 3 && (buf <= f || f <= buf)
    ensures [] + buf[..3] == buf[..3] == f[..3]
  {
  }

  lemma CutAround(buf: seq<Byte>, f: seq<Byte>, size: nat)
    requires f <= buf && |f| == size + MIN_SIZE
    ensures f[..3] + buf[3..][..size + 1] == f && buf[3..][size + 1..] == buf[|f|..]
  {
  }

  lemma StepAt(mode: Mode, buf: seq<Byte>, f: seq<Byte>, size: nat)
    requires |f| == size + MIN_SIZE && size <= MAX_PAYLOAD && f[0] == HEAD && f[|f| - 1] == END
    requires |buf| >= MIN_SIZE && [] + buf[..3] == f[..3] && Announced(mode, f[..3]) == size
    requires |buf| >= |f| ==> f[..3] + buf[3..][..size + 1] == f && buf[3..][size + 1..] == buf[|f|..]
    ensures Step(mode, buf, []) == if |buf| < |f| then Short else Found(f, buf[|f|..])
  {
    hide StepBody, Announced;
    SmallRemainder(size + MIN_SIZE, 0x1_0000);
    if |buf| >= |f| { BodyStep(f[..3], buf[3..], size); }
  }

  /** Bytes that begin like a frame of the announced size: it is read whole or not touched. */
  lemma StepReads(mode: Mode, buf: seq<Byte>, f: seq<Byte>, size: nat)
    requires |f| == size + MIN_SIZE && size <= MAX_PAYLOAD && f[0] == HEAD && f[|f| - 1] == END
    requires Announced(mode, f[..3]) == size
    requires |buf| >= MIN_SIZE && (buf <= f || f <= buf)
    ensures Step(mode, buf, []) == if |buf| < |f| then Short else Found(f, buf[|f|..])
  {
    hide Step, Announced;
    SameHead(buf, f);
    if |buf| >= |f| { CutAround(buf, f, size); }
    StepAt(mode, buf, f, size);
  }

  lemma ScanFrame(mode: Mode, buf: seq<Byte>, rest: seq<Byte>, p: seq<Byte>)
    requires Frame(mode, p) <= buf + rest && |p| <= MAX_PAYLOAD && |buf| >= MIN_SIZE
    ensures var f := Frame(mode, p);
      Scan(mode, buf, []) == if |buf| < |f| then (None, buf) else (Some(f), buf[|f|..])
  {
    var f := Frame(mode, p);
    FrameHead(mode, p);
    PrefixEither(f, buf, rest);
    StepReads(mode, buf, f, |p|);
  }

  lemma ScanSkips(mode: Mode, buf: seq<Byte>)
    requires |buf| >= MIN_SIZE && buf[0] != HEAD
    ensures Scan(mode, buf, []) == Scan(mode, buf[1..], [])
  {
    assert ([] + buf[..3])[0] == buf[0];
    assert Step(mode, buf, []) == Again(buf[1..], []);
  }

  lemma PrefixEither(f: seq<Byte>, buf: seq<Byte>, rest: seq<Byte>)
    requires f <= buf + rest
    ensures buf <= f || f <= buf
  {
    assert if |f| <= |buf| then f == buf[..|f|] else buf == f[..|buf|];
  }

  /** What a scan makes of a buffered prefix of a stream. */
  lemma {:induction false} ScanStream(mode: Mode, buf: seq<Byte>, rest: seq<Byte>, ps: seq<seq<Byte>>)
    requires Carries(mode, buf + rest, ps) && Sendable(ps)
    ensures var scan := Scan(mode, buf, []);
      if scan.0.None? then Carries(mode, scan.1 + rest, ps) && (rest == [] ==> ps == [])
      else ps != [] && scan.0.value == Frame(mode, ps[0]) && Carries(mode, scan.1 + rest, ps[1..])
    decreases |buf|
  {
    hide Frame, Carries, Scan;
    var s := buf + rest;
    if |buf| < MIN_SIZE {
      ScanShort(mode, buf);
      CarriesLength(mode, s, ps);
    } else if buf[0] != HEAD {
      CarriesWithout(mode, s, ps);
      ScanSkips(mode, buf);
      assert s[1..] == buf[1..] + rest;
      ScanStream(mode, buf[1..], rest, ps);
    } else {
      CarriesFrame(mode, s, ps);
      var f := Frame(mode, ps[0]);
      ScanFrame(mode, buf, rest, ps[0]);
      if |buf| >= |f| { assert s[|f|..] == buf[|f|..] + rest; }
    }
  }

  lemma ScanShort(mode: Mode, buf: seq<Byte>)
    requires |buf| < MIN_SIZE
    ensures Scan(mode, buf, []) == (None, buf)
  {
  }

  function Frames(mode: Mode, ps: seq<seq<Byte>>): seq<seq<Byte>> {
    if ps == [] then [] else [Frame(mode, ps[0])] + Frames(mode, ps[1..])
  }

  lemma {:induction false} PayloadsOfFrames(mode: Mode, ps: seq<seq<Byte>>)
    requires Sendable(ps)
    ensures Payloads(Frames(mode, ps)) == ps
    decreases |ps|
  {
    if ps != [] {
      hide Frame;
      PayloadsOfFrames(mode, ps[1..]);
      FramePayload(mode, ps[0]);
      SmallRemainder(|ps[0]|, 0x1_0000);
      assert Frames(mode, ps)[1..] == Frames(mode, ps[1..]);
    }
  }

  lemma {:induction false} FramesSplit(mode: Mode, ps: seq<seq<Byte>>, k: nat)
    requires k <= |ps|
    ensures Frames(mode, ps) == Frames(mode, ps[..k]) + Frames(mode, ps[k..])
  {
    hide Frame, Frames;
    if k == 0 {
      assert ps[0..] == ps;
      NoFrames(mode, ps[..0]);
    } else {
      FramesOnce(mode, ps);
      FramesOnce(mode, ps[..k]);
      FramesSplit(mode, ps[1..], k - 1);
      assert ps[..k][1..] == ps[1..][..k - 1] && ps[1..][k - 1..] == ps[k..];
      Associate([Frame(mode, ps[0])], Frames(mode, ps[1..][..k - 1]), Frames(mode, ps[k..]));
    }
  }

  /** Draining a buffered prefix of a stream reads some of its frames, in order, and leaves a prefix of a stream of the others. */
  lemma {:induction false} DrainStream(mode: Mode, buf: seq<Byte>, rest: seq<Byte>, ps: seq<seq<Byte>>) returns (k: nat)
    requires Carries(mode, buf + rest, ps) && Sendable(ps)
    ensures k <= |ps| && Drain(mode, buf).0 == Frames(mode, ps[..k])
    ensures Carries(mode, Drain(mode, buf).1 + rest, ps[k..]) && (rest == [] ==> k == |ps|)
    decreases |buf|
  {
    hide Scan, Drain, Carries, Frames, Frame;
    var (found, left) := Scan(mode, buf, []);
    ScanStream(mode, buf, rest, ps);
    DrainOnce(mode, buf);
    if found.None? {
      k := 0;
      assert ps[0..] == ps && ps[..0] == [];
      NoFrames(mode, ps[..0]);
    } else {
      var j := DrainStream(mode, left, rest, ps[1..]);
      k := j + 1;
      assert ps[1..][j..] == ps[k..] && ps[..k][1..] == ps[1..][..j] && ps[..k][0] == ps[0];
      FramesOnce(mode, ps[..k]);
    }
  }

  lemma NoFrames(mode: Mode, ps: seq<seq<Byte>>)
    requires ps == []
    ensures Frames(mode, ps) == []
  {
  }

  lemma FramesOnce(mode: Mode, ps: seq<seq<Byte>>)
    requires ps != []
    ensures Frames(mode, ps) == [Frame(mode, ps[0])] + Frames(mode, ps[1..])
  {
  }

  /** The frames read from a buffer while the fragments arrive one after the other. */
  function Feed(mode: Mode, buf: seq<Byte>, fragments: seq<seq<Byte>>): seq<seq<Byte>>
    decreases |fragments|
  {
    if fragments == [] then []
    else
      var (frames, left) := Drain(mode, buf + fragments[0]);
      frames + Feed(mode, left, fragments[1..])
  }

  /** Framing does not depend on fragmentation: exactly the packets packed are read, once each and in order. */
  lemma {:induction false} FramingSurvivesFragmentation(mode: Mode, buf: seq<Byte>, fragments: seq<seq<Byte>>, ps: seq<seq<Byte>>)
    requires Carries(mode, buf + Concat(fragments), ps) && Sendable(ps) && fragments != []
    ensures Feed(mode, buf, fragments) == Frames(mode, ps) && Payloads(Feed(mode, buf, fragments)) == ps
    decreases |fragments|
  {
    hide Carries, Drain, Frames, Payloads;
    PayloadsOfFrames(mode, ps);
    var rest := Concat(fragments[1..]);
    assert buf + Concat(fragments) == (buf + fragments[0]) + rest;
    var k := DrainStream(mode, buf + fragments[0], rest, ps);
    var left := Drain(mode, buf + fragments[0]).1;
    if |fragments| == 1 {
      assert ps[..k] == ps;
    } else {
      FramingSurvivesFragmentation(mode, left, fragments[1..], ps[k..]);
      FramesSplit(mode, ps, k);
    }
  }

  // ----- The limit on the payload -----

  /** A frame is found with the bytes read before it at its front. */
  lemma {:induction false} FoundBehind(mode: Mode, buf: seq<Byte>, data: seq<Byte>)
    requires |data| >= 3 && data[0] == HEAD
    ensures Scan(mode, buf, data).0.Some? ==> data <= Scan(mode, buf, data).0.value
    decreases |buf|
  {
    var t := Step(mode, buf, data);
    if t.Again? {
      assert data <= t.data && t.data[0] == data[0];
      FoundBehind(mode, t.buf, t.data);
    }
  }

  lemma ScanOnce(mode: Mode, buf: seq<Byte>, data: seq<Byte>)
    ensures Scan(mode, buf, data) ==
            match Step(mode, buf, data)
            case Short => (None, buf)
            case Found(frame, rest) => (Some(frame), rest)
            case Again(buf', data') => Scan(mode, buf', data')
  {
  }

  /** What a turn has read begins with what it looked at, and is just that when more is announced than there is. */
  lemma StepKeepsHead(mode: Mode, buf: seq<Byte>, data: seq<Byte>)
    requires |buf| >= MIN_SIZE && (data == [] || (|data| >= 3 && data[0] == HEAD))
    ensures var head := data + buf[..3];
      match Step(mode, buf, data)
      case Short => true
      case Found(frame, rest) => head <= frame && (|buf| < Announced(mode, head) + MIN_SIZE ==> frame == head)
      case Again(buf', data') =>
        || (data' == [] && |buf'| < |buf|)
        || (head <= data' && data'[0] == HEAD && buf' == buf[3..] && (|buf| < Announced(mode, head) + MIN_SIZE ==> data' == head))
  {
    hide Number;
  }

  lemma SameAnnounced(mode: Mode, a: seq<Byte>, b: seq<Byte>)
    requires |a| >= 3 && a <= b
    ensures Announced(mode, a) == Announced(mode, b)
  {
    hide Number;
    assert a[1..3] == b[1..3];
  }

  /** A frame that announces more than there is in the buffer is no longer than what there is. */
  lemma {:induction false} FoundWithin(mode: Mode, buf: seq<Byte>, data: seq<Byte>)
    requires data == [] || (|data| >= 3 && data[0] == HEAD)
    ensures var found := Scan(mode, buf, data).0;
      found.Some? ==> |found.value| >= 3 && (|buf| < Announced(mode, found.value) + MIN_SIZE ==> |found.value| <= |data| + |buf|)
    decreases |buf|
  {
    hide Step, Announced, Scan;
    ScanOnce(mode, buf, data);
    if |buf| < MIN_SIZE {
      ShortStep(mode, buf, data);
    } else {
      var head := data + buf[..3];
      StepKeepsHead(mode, buf, data);
      match Step(mode, buf, data) {
        case Short =>
        case Found(frame, rest) => SameAnnounced(mode, head, frame);
        case Again(buf', data') =>
          FoundWithin(mode, buf', data');
          if data' != [] {
            FoundBehind(mode, buf', data');
            var found := Scan(mode, buf', data').0;
            if found.Some? { SameAnnounced(mode, head, found.value); }
          }
      }
    }
  }

  lemma ShortStep(mode: Mode, buf: seq<Byte>, data: seq<Byte>)
    requires |buf| < MIN_SIZE
    ensures Step(mode, buf, data) == Short
  {
  }

  /** No frame is read whole from fewer bytes than it has. */
  lemma {:induction false} NotFromFewer(mode: Mode, buf: seq<Byte>, p: seq<Byte>)
    requires |p| < 0x1_0000 && |buf| < |Frame(mode, p)|
    ensures Frame(mode, p) !in Drain(mode, buf).0
    decreases |buf|
  {
    hide Scan, Drain, Frame, Number;
    var f := Frame(mode, p);
    FrameHead(mode, p);
    FoundWithin(mode, buf, []);
    DrainOnce(mode, buf);
    var scan := Scan(mode, buf, []);
    assert f[..3][1..3] == f[1..3];
    if scan.0.Some? { NotFromFewer(mode, scan.1, p); }
  }

  /** Of a frame over the limit that has arrived in part, at least four bytes of it, some are thrown away. */
  lemma PartThrownAway(mode: Mode, p: seq<Byte>, k: nat)
    requires MAX_PAYLOAD < |p| < 0x1_0000 && MIN_SIZE <= k < |Frame(mode, p)|
    ensures |Drain(mode, Frame(mode, p)[..k]).1| < k
  {
    hide Scan, Drain, Frame, Number;
    var buf := Frame(mode, p)[..k];
    FrameHead(mode, p);
    assert [] + buf[..3] == Frame(mode, p)[..3];
    ScanOnce(mode, buf, []);
    StepShrinks(mode, buf, []);
    match Step(mode, buf, []) {
      case Found(frame, rest) =>
      case Again(buf', data') => ScanShrinks(mode, buf', data');
    }
    DrainShrinks(mode, buf);
  }

  lemma {:induction false} DrainShrinks(mode: Mode, buf: seq<Byte>)
    ensures |Drain(mode, buf).1| <= |Scan(mode, buf, []).1| <= |buf|
    decreases |buf|
  {
    hide Scan, Drain;
    ScanShrinks(mode, buf, []);
    DrainOnce(mode, buf);
    if Scan(mode, buf, []).0.Some? { DrainShrinks(mode, Scan(mode, buf, []).1); }
  }

  /** So a scan leaves such a part untouched if and only if the frame is within the limit. */
  lemma PartialFrameKept(mode: Mode, p: seq<Byte>, k: nat)
    requires |p| < 0x1_0000 && MIN_SIZE <= k < |Frame(mode, p)|
    ensures Scan(mode, Frame(mode, p)[..k], []) == (None, Frame(mode, p)[..k]) <==> |p| <= MAX_PAYLOAD
  {
    hide Scan, Drain, Frame;
    var f := Frame(mode, p);
    if |p| <= MAX_PAYLOAD {
      assert f[..k] + f[k..] == f;
      ScanFrame(mode, f[..k], f[k..], p);
    } else {
      PartThrownAway(mode, p, k);
      DrainOnce(mode, f[..k]);
    }
  }

  lemma FeedTwo(mode: Mode, a: seq<Byte>, b: seq<Byte>)
    ensures Feed(mode, [], [a, b]) == Drain(mode, a).0 + Drain(mode, Drain(mode, a).1 + b).0
    ensures Concat([a, b]) == a + b
  {
    hide Drain;
    assert [] + a == a && [a, b][1..] == [b] && [b][1..] == [] && Concat([b]) == b;
    assert Feed(mode, Drain(mode, a).1, [b]) == Drain(mode, Drain(mode, a).1 + b).0;
  }

  /** A frame that is alone in the buffer is read, whatever its size. */
  lemma WholeFrameRead(mode: Mode, p: seq<Byte>)
    requires |p| < 0x1_0000
    ensures Drain(mode, Frame(mode, p)) == ([Frame(mode, p)], [])
  {
    hide Scan, Drain, Frame, Number;
    var f := Frame(mode, p);
    FrameHead(mode, p);
    assert [] + f[..3] == f[..3] && f[..3] + f[3..] == f && f[3..][..|p| + 1] == f[3..];
    assert Step(mode, f, []) == Found(f, []);
    ScanOnce(mode, f, []);
    DrainOnce(mode, f);
    ScanShort(mode, []);
    DrainOnce(mode, []);
    assert [f] + [] == [f];
  }

  /**
    The limit on the payload is exact: a frame that arrives in two parts is read, and nothing else
    is, if and only if its payload is at most 65531 bytes long or the first part is too short to
    be looked at.
   */
  lemma TwoPartsReadIff(mode: Mode, p: seq<Byte>, k: nat)
    requires |p| < 0x1_0000 && 0 < k < |Frame(mode, p)|
    ensures var f := Frame(mode, p); Feed(mode, [], [f[..k], f[k..]]) == [f] <==> |p| <= MAX_PAYLOAD || k < MIN_SIZE
  {
    hide Scan, Drain, Frame, Feed, Carries;
    var f := Frame(mode, p);
    FeedTwo(mode, f[..k], f[k..]);
    assert f[..k] + f[k..] == f;
    if |p| <= MAX_PAYLOAD {
      OneCarried(mode, p);
      assert [] + f == f;
      FramingSurvivesFragmentation(mode, [], [f[..k], f[k..]], [p]);
      assert Frames(mode, [p]) == [f];
    } else if k < MIN_SIZE {
      ScanShort(mode, f[..k]);
      DrainOnce(mode, f[..k]);
      WholeFrameRead(mode, p);
    } else {
      PartThrownAway(mode, p, k);
      NotFromFewer(mode, f[..k], p);
      NotFromFewer(mode, Drain(mode, f[..k]).1 + f[k..], p);
      assert f !in Feed(mode, [], [f[..k], f[k..]]) && f in [f];
    }
  }

  lemma NothingCarried(mode: Mode)
    ensures Carries(mode, [], [])
  {
  }

  /** With `have` bytes there already, no fragment leaves at least four but fewer than `n` bytes. */
  ghost predicate NeverPart(have: nat, fragments: seq<seq<Byte>>, n: nat) {
    forall j :: 0 <= j <= |fragments| ==> var k := have + |Concat(fragments[..j])|; k < MIN_SIZE || k >= n
  }

  lemma NeverPartFurther(have: nat, fragments: seq<seq<Byte>>, n: nat)
    requires fragments != []
    ensures NeverPart(have, fragments, n) <==>
            (have < MIN_SIZE || have >= n) && NeverPart(have + |fragments[0]|, fragments[1..], n)
  {
    hide Concat;
    var next, rest := have + |fragments[0]|, fragments[1..];
    NothingConcatenated(fragments[..0]);
    forall j | 0 < j <= |fragments| ensures have + |Concat(fragments[..j])| == next + |Concat(rest[..j - 1])| {
      ConcatOnce(fragments[..j]);
      assert fragments[..j][1..] == rest[..j - 1];
    }
    if NeverPart(have, fragments, n) {
      forall j | 0 <= j <= |rest| ensures var k := next + |Concat(rest[..j])|; k < MIN_SIZE || k >= n {
        assert have + |Concat(fragments[..j + 1])| == next + |Concat(rest[..j + 1 - 1])|;
      }
    }
  }

  lemma FeedOnce(mode: Mode, buf: seq<Byte>, fragments: seq<seq<Byte>>)
    requires fragments != []
    ensures var d := Drain(mode, buf + fragments[0]); Feed(mode, buf, fragments) == d.0 + Feed(mode, d.1, fragments[1..])
  {
  }

  lemma {:induction false} NotInFeed(mode: Mode, buf: seq<Byte>, fragments: seq<seq<Byte>>, p: seq<Byte>)
    requires |p| < 0x1_0000 && |buf| + |Concat(fragments)| < |Frame(mode, p)|
    ensures Frame(mode, p) !in Feed(mode, buf, fragments)
    decreases |fragments|
  {
    hide Drain, Frame, Concat;
    if fragments != [] {
      var arrived := buf + fragments[0];
      ConcatOnce(fragments);
      FeedOnce(mode, buf, fragments);
      DrainShrinks(mode, arrived);
      NotFromFewer(mode, arrived, p);
      NotInFeed(mode, Drain(mode, arrived).1, fragments[1..], p);
    }
  }

  lemma {:induction false} FeedNothing(mode: Mode, fragments: seq<seq<Byte>>, n: nat)
    requires Concat(fragments) == []
    ensures Feed(mode, [], fragments) == [] && NeverPart(n, fragments, n)
    decreases |fragments|
  {
    hide Drain, Concat, NeverPart;
    if fragments == [] {
      NeverPartAtEnd(n, fragments, n);
    } else {
      ConcatOnce(fragments);
      assert fragments[0] == [] && [] + fragments[0] == [];
      FeedOnce(mode, [], fragments);
      ScanShort(mode, []);
      DrainOnce(mode, []);
      FeedNothing(mode, fragments[1..], n);
      NeverPartFurther(n, fragments, n);
    }
  }

  lemma NeverPartAtEnd(have: nat, fragments: seq<seq<Byte>>, n: nat)
    requires fragments == [] && have >= n
    ensures NeverPart(have, fragments, n)
  {
  }

  lemma NeverPartHere(have: nat, fragments: seq<seq<Byte>>, n: nat)
    requires MIN_SIZE <= have < n
    ensures !NeverPart(have, fragments, n)
  {
    NothingConcatenated(fragments[..0]);
  }

  /** A frame over the limit of which fewer than four bytes are there. */
  lemma {:induction false} LongFrameReadIff(mode: Mode, buf: seq<Byte>, fragments: seq<seq<Byte>>, p: seq<Byte>)
    requires MAX_PAYLOAD < |p| < 0x1_0000 && buf + Concat(fragments) == Frame(mode, p) && |buf| < MIN_SIZE
    ensures Feed(mode, buf, fragments) == [Frame(mode, p)] <==> NeverPart(|buf|, fragments, |Frame(mode, p)|)
    decreases |fragments|
  {
    hide Drain, Frame, Concat, Feed, NeverPart;
    var f := Frame(mode, p);
    if fragments == [] {
      NothingConcatenated(fragments);
    } else {
      var arrived, rest := buf + fragments[0], fragments[1..];
      ConcatOnce(fragments);
      FeedOnce(mode, buf, fragments);
      NeverPartFurther(|buf|, fragments, |f|);
      assert buf + (fragments[0] + Concat(rest)) == arrived + Concat(rest);
      if |arrived| < MIN_SIZE {
        ScanShort(mode, arrived);
        DrainOnce(mode, arrived);
        assert [] + Feed(mode, arrived, rest) == Feed(mode, arrived, rest);
        LongFrameReadIff(mode, arrived, rest, p);
      } else if |arrived| < |f| {
        assert arrived == f[..|arrived|];
        PartThrownAway(mode, p, |arrived|);
        NotFromFewer(mode, arrived, p);
        NotInFeed(mode, Drain(mode, arrived).1, rest, p);
        NeverPartHere(|arrived|, rest, |f|);
        assert f !in Feed(mode, buf, fragments) && f in [f];
      } else {
        assert arrived == f && Concat(rest) == [];
        WholeFrameRead(mode, p);
        FeedNothing(mode, rest, |f|);
        assert [f] + [] == [f];
      }
    }
  }

  /**
    However a frame is cut, it is what is read if and only if its payload is at most 65531 bytes
    long or it is never there in part with four bytes or more.
   */
  lemma FrameReadIff(mode: Mode, p: seq<Byte>, fragments: seq<seq<Byte>>)
    requires |p| < 0x1_0000 && Concat(fragments) == Frame(mode, p)
    ensures Feed(mode, [], fragments) == [Frame(mode, p)] <==>
            |p| <= MAX_PAYLOAD || NeverPart(0, fragments, |Frame(mode, p)|)
  {
    hide Scan, Drain, Frame, Feed, Carries, Concat, NeverPart;
    var f := Frame(mode, p);
    assert [] + Concat(fragments) == f;
    if |p| <= MAX_PAYLOAD {
      if fragments == [] { NothingConcatenated(fragments); }
      OneCarried(mode, p);
      FramingSurvivesFragmentation(mode, [], fragments, [p]);
      assert Frames(mode, [p]) == [f];
    } else {
      LongFrameReadIff(mode, [], fragments, p);
    }
  }

  lemma OneCarried(mode: Mode, p: seq<Byte>)
    ensures Carries(mode, Frame(mode, p), [p])
  {
    hide Frame, Carries;
    NothingCarried(mode);
    CarriesMore(mode, [], p, [], []);
    assert [] + Frame(mode, p) + [] == Frame(mode, p) && [p] + [] == [p];
  }

  /** A frame as it is sent. */
  lemma OnTheWire(p: seq<Byte>)
    requires |p| < 0x1_0000
    ensures Frame(LittleEndian, p) == [0x7e, |p| % 256, |p| / 256] + p + [0xe7]
    ensures Frame(BigEndian, p) == [0x7e, |p| / 256, |p| % 256] + p + [0xe7]
  {
    hide Bytes, Pow256;
    assert Pow256(0) == 1 && Pow256(1) == 256 by { PowMore(1); PowNone(); }
    ByteAt(|p|, 2, 0);
    ByteAt(|p|, 2, 1);
    TwoBytes(Bytes(LittleEndian, |p|, 2), |p| % 256, |p| / 256);
    TwoBytes(Bytes(BigEndian, |p|, 2), |p| / 256, |p| % 256);
  }

  lemma TwoBytes(b: seq<Byte>, x: Byte, y: Byte)
    requires |b| == 2 && b[0] == x && b[1] == y
    ensures [0x7e] + b == [0x7e, x, y]
  {
  }

  // ----- A wrong end byte -----

  /** The scan goes on in steps of three bytes: the number of the first step that meets an end byte. */
  function FirstEnd(more: seq<Byte>): Option<nat>
    decreases |more|
  {
    if |more| < 3 then None
    else if more[2] == END then Some(0)
    else match FirstEnd(more[3..]) case None => None case Some(j) => Some(j + 1)
  }

  ghost predicate EndAt(more: seq<Byte>, j: nat) { 3 * j + 2 < |more| && more[3 * j + 2] == END }

  lemma {:induction false} FirstEndIff(more: seq<Byte>)
    ensures match FirstEnd(more)
            case None => forall j: nat :: !EndAt(more, j)
            case Some(j) => EndAt(more, j) && forall i: nat :: i < j ==> !EndAt(more, i)
    decreases |more|
  {
    if |more| >= 3 {
      FirstEndIff(more[3..]);
      forall j: nat | j > 0 ensures EndAt(more, j) <==> EndAt(more[3..], j - 1) {
        assert 3 * j + 2 < |more| ==> more[3..][3 * (j - 1) + 2] == more[3 * j + 2];
      }
    }
  }

  /** One more step of three bytes. */
  lemma StepOn(mode: Mode, d: seq<Byte>, b: seq<Byte>, size: nat)
    requires |d| >= 3 && d[0] == HEAD && Announced(mode, d) == size <= MAX_PAYLOAD && |b| > size
    ensures var more, t := b[size + 1..], Step(mode, b, d);
      if |more| < 3 then t == Short
      else if more[2] == END then t.Found? && t.rest == more[3..]
      else t.Again? && t.buf == b[3..] && t.buf[size + 1..] == more[3..] && |t.buf| > size
           && |t.data| >= 3 && t.data[0] == HEAD && Announced(mode, t.data) == size
  {
    hide StepBody, Number;
    if |b| >= size + MIN_SIZE {
      var head, rest := d + b[..3], b[3..];
      assert head[1..3] == d[1..3];
      SmallRemainder(size + MIN_SIZE, 0x1_0000);
      BodyStep(head, rest, size);
      assert (head + rest[..size + 1])[1..3] == d[1..3];
      assert rest[..size + 1][size] == b[size + 1..][2];
      Behind3(b, size);
    } else if |b| >= MIN_SIZE {
      assert (d + b[..3])[1..3] == d[1..3];
      SmallRemainder(size + MIN_SIZE, 0x1_0000);
    }
  }

  lemma Behind3(b: seq<Byte>, size: nat)
    requires |b| >= size + 4
    ensures b[3..][size + 1..] == b[size + 1..][3..]
  {
  }

  lemma {:induction false} ScanOn(mode: Mode, d: seq<Byte>, b: seq<Byte>, size: nat)
    requires |d| >= 3 && d[0] == HEAD && Announced(mode, d) == size <= MAX_PAYLOAD && |b| > size
    ensures var more, scan := b[size + 1..], Scan(mode, b, d);
      match FirstEnd(more)
      case None => scan == (None, b[3 * (|more| / 3)..])
      case Some(j) => 3 * j + 3 <= |more| && scan.0.Some? && scan.1 == more[3 * j + 3..]
    decreases |b|
  {
    hide Step, Announced, Scan;
    var more := b[size + 1..];
    StepOn(mode, d, b, size);
    ScanOnce(mode, b, d);
    var t := Step(mode, b, d);
    if t.Again? {
      ScanOn(mode, t.data, t.buf, size);
      Thrice(b, more);
    }
  }

  lemma Thrice(b: seq<Byte>, more: seq<Byte>)
    requires 3 <= |more| <= |b|
    ensures 3 * (|more| / 3) <= |b| && b[3..][3 * (|more[3..]| / 3)..] == b[3 * (|more| / 3)..]
    ensures forall j: nat :: 3 * j + 3 <= |more[3..]| ==> more[3..][3 * j + 3..] == more[3 * (j + 1) + 3..]
  {
  }

  /**
    After a frame whose end byte is wrong, what follows it is taken for the rest of a longer frame. One is found if
    and only if an end byte stands at the third place behind the frame, or three or six or more places further on;
    then nothing is left but what stands behind the first of these. Otherwise all is kept but the first bytes, in threes.
   */
  lemma WrongEnd(mode: Mode, p: seq<Byte>, x: Byte, more: seq<Byte>)
    requires |p| <= MAX_PAYLOAD && x != END
    ensures var buf := Frame(mode, p)[..|p| + 3] + [x] + more; var scan := Scan(mode, buf, []);
      match FirstEnd(more)
      case None => scan == (None, buf[3 + 3 * (|more| / 3)..])
      case Some(j) => 3 * j + 3 <= |more| && scan.0.Some? && scan.1 == more[3 * j + 3..]
  {
    hide Step, Announced, Scan, Frame;
    var f := Frame(mode, p)[..|p| + 3];
    var buf := f + [x] + more;
    var b := buf[3..];
    FrameHead(mode, p);
    assert f[..3] == Frame(mode, p)[..3];
    WrongEndStep(mode, f, x, more, |p|);
    ScanOnce(mode, buf, []);
    assert b[|p| + 1..] == more && buf[3 + 3 * (|more| / 3)..] == b[3 * (|more| / 3)..];
    ScanOn(mode, f + [x], b, |p|);
  }

  lemma WrongEndStep(mode: Mode, f: seq<Byte>, x: Byte, more: seq<Byte>, size: nat)
    requires |f| == size + 3 && f[0] == HEAD && Announced(mode, f[..3]) == size <= MAX_PAYLOAD && x != END
    ensures var buf := f + [x] + more; Step(mode, buf, []) == Again(buf[3..], f + [x])
    ensures Announced(mode, f + [x]) == size
  {
    hide StepBody, Number;
    var buf := f + [x] + more;
    WrongEndAround(f, x, more, size);
    SmallRemainder(size + MIN_SIZE, 0x1_0000);
    BodyStep(f[..3], buf[3..], size);
  }

  lemma WrongEndAround(f: seq<Byte>, x: Byte, more: seq<Byte>, size: nat)
    requires |f| == size + 3
    ensures var buf := f + [x] + more;
      [] + buf[..3] == f[..3] && f[..3] + buf[3..][..size + 1] == f + [x] && (f + [x])[1..3] == f[..3][1..3]
  {
    var head, tail := f[..3], f[3..];
    assert f == head + tail;
    assert f + [x] + more == head + (tail + [x] + more);
    assert (f + [x] + more)[3..] == tail + [x] + more;
    assert (tail + [x] + more)[..size + 1] == tail + [x];
    assert head + (tail + [x]) == f + [x];
  }

  // ----- A stream over either buffer -----

  /** What stays in the buffer after the last fragment. */
  function Kept(mode: Mode, buf: seq<Byte>, fragments: seq<seq<Byte>>): seq<Byte>
    decreases |fragments|
  {
    if fragments == [] then buf else Kept(mode, Drain(mode, buf + fragments[0]).1, fragments[1..])
  }

  lemma KeptOnce(mode: Mode, buf: seq<Byte>, fragments: seq<seq<Byte>>)
    requires fragments != []
    ensures Kept(mode, buf, fragments) == Kept(mode, Drain(mode, buf + fragments[0]).1, fragments[1..])
  {
  }

  lemma NothingFed(mode: Mode, buf: seq<Byte>)
    ensures Feed(mode, buf, []) == [] && Kept(mode, buf, []) == buf
  {
  }

  lemma PayloadsJoined(a: seq<seq<Byte>>, b: seq<seq<Byte>>)
    ensures Payloads(a + b) == Payloads(a) + Payloads(b)
  {
    hide Payload;
    var ps, qs := Payloads(a + b), Payloads(a) + Payloads(b);
    assert forall i :: 0 <= i < |ps| ==> ps[i] == qs[i];
  }

  /** What the fragment with index `i` comes to. */
  lemma FragmentFed(mode: Mode, buf: seq<Byte>, fragments: seq<seq<Byte>>, i: nat)
    requires i < |fragments|
    ensures var d := Drain(mode, buf + fragments[i]);
      && Feed(mode, buf, fragments[i..]) == d.0 + Feed(mode, d.1, fragments[i + 1..])
      && Kept(mode, buf, fragments[i..]) == Kept(mode, d.1, fragments[i + 1..])
      && |Concat(fragments[i..])| == |fragments[i]| + |Concat(fragments[i + 1..])|
      && |d.1| <= |buf| + |fragments[i]|
  {
    hide Drain, Feed, Kept, Concat;
    var rest := fragments[i..];
    assert rest[0] == fragments[i] && rest[1..] == fragments[i + 1..];
    FeedOnce(mode, buf, rest);
    KeptOnce(mode, buf, rest);
    ConcatOnce(rest);
    DrainShrinks(mode, buf + fragments[i]);
  }

  /** A connection's fragments arrive one after the other and are drained, with room for them in the buffer. */
  method Deliver(mode: Mode, packetbuf: PacketBuffer<Byte>, fragments: seq<seq<Byte>>, packet: Packet)
    returns (frames: seq<seq<Byte>>, payloads: seq<seq<Byte>>)
    requires packetbuf.Valid() && packetbuf.Fits(|Concat(fragments)|) && packet !in packetbuf.Objects()
    modifies packetbuf.Objects(), packet
    ensures packetbuf.Valid() && payloads == Payloads(frames)
    ensures frames == Feed(mode, old(packetbuf.Contents()), fragments)
    ensures packetbuf.Contents() == Kept(mode, old(packetbuf.Contents()), fragments)
  {
    hide Drain, Payloads, Feed, Kept, Concat, PacketBuffer.Contents, PacketBuffer.Valid;
    ghost var was := packetbuf.Contents();
    frames, payloads := [], [];
    var i := 0;
    assert fragments[i..] == fragments;
    while i < |fragments|
      invariant 0 <= i <= |fragments| && payloads == Payloads(frames)
      invariant packetbuf.Valid() && packetbuf.Fits(|Concat(fragments[i..])|)
      invariant Feed(mode, was, fragments) == frames + Feed(mode, packetbuf.Contents(), fragments[i..])
      invariant Kept(mode, was, fragments) == Kept(mode, packetbuf.Contents(), fragments[i..])
    {
      ghost var buf := packetbuf.Contents();
      FragmentFed(mode, buf, fragments, i);
      var read, data := OnMessage(mode, packetbuf, fragments[i], packet);
      PayloadsJoined(frames, read);
      Associate(frames, read, Feed(mode, packetbuf.Contents(), fragments[i + 1..]));
      frames, payloads := frames + read, payloads + data;
      i := i + 1;
    }
    assert fragments[i..] == [];
    NothingFed(mode, packetbuf.Contents());
  }
}
